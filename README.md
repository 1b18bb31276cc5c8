# Smart PortSwitch — a Dafny model

This project models the core of the Sea Route Visualizer, a small Streamlit
application for planning a voyage between two ports:

- **Port names.** Names are canonicalised (`canon_name`) into join keys.
- **Gazetteer.** The World Port Index table is loaded with its sorted port names and its ports per normalised country. It is searched by main port name, and a row's latitude and longitude are read either as decimal numbers or as degree–minute–second text.
- **Congestion and aliases.** The congestion table becomes an index from canonical port name to waiting hours, plus an optional geo table. The alias table maps gazetteer names to congestion names.
- **Piracy incidents.** The incident table is cleaned into distinct in-range (LAT, LON) points. The loader finds the coordinate columns, parses decimal, hemisphere-suffixed and degree–minute–second cells, and wraps longitudes past 180°.
- **Sea routes.** Routes come from the sea-route library behind an LRU memo. Leg lengths are converted to nautical miles, the ETA follows, and fuel, CO₂, cost and CO₂ intensity are priced from it.
- **Piracy risk.** Incidents are counted inside the route's buffered corridor, after a bounding-box pre-filter.
- **Route path.** The path is built from the origin, the optional intermediate stops and the destination. When asked, every ordering of the stops is tried and the shortest one in nautical miles is kept. The legs are then assembled into one route summary.
- **Smart PortSwitch.** Alternative destination ports are evaluated:
  - the candidate pool (same country or every port, plus the baseline destination);
  - the radius filter around the baseline destination, with the origin excluded;
  - each candidate's wait, resolved through the alias → exact → fuzzy → geo-nearest chain;
  - its route, ETA, fuel, CO₂ and cost;
  - min–max normalisation of four metrics, a weighted score, and the table ranked by ascending score with its best row.
- **Session state.** The app keeps its route summary and alternate summary between reruns. "Compute / Update" replaces both, and "Choose Best Route" overwrites the summary with the best candidate's figures.

The Python modules become Dafny modules:

| Dafny module | file | models |
|---|---|---|
| `Wrappers` | wrappers.dfy | `Option` and `Outcome` (`Done(v)` or `Raised`, standing for a Python exception) |
| `PyText` | pytext.dfy | the Python string and number behaviour the code relies on: `isspace`, `strip`, `lower`/`upper`/`title`, `float()` on decimal text, string order, `sorted(set(...))`, `min`/`max` |
| `Canon` | canon.dfy | utils.py |
| `Coords` | coords.dfy | the coordinate parsing and piracy-table cleaning of data_sources.py |
| `Gazetteer` | gazetteer.dfy | `_norm_country`, `load_wpi`, `get_row_by_main` |
| `Congestion` | congestion.dfy | `load_congestion_advanced`, `load_alias_map` |
| `Routing` | routing.dfy | routing.py, with the `lru_cache` memo as the class `RouteCache` |
| `Voyage` | voyage.dfy | the fuel / CO₂ / cost arithmetic and the route summary record |
| `Risk` | risk.dfy | `piracy_hits_along_route` |
| `PortSwitch` | portswitch.dfy | `evaluate_portswitch` with its resolver and normaliser |
| `App` | app.dfy | path building, route assembly, the alternate route, and the session state of app.py |

Some services are parameters of the model, as function values:

- the sea-route library (`Routing.Searoute`);
- the haversine distance (`PortSwitch.Distance`);
- the rapidfuzz `token_sort_ratio` scorer (`PortSwitch.Scorer`);
- the shapely "point within the buffered line" test (`Risk.Corridor`);
- the gazetteer lookup of a port (`PortSwitch.Locator`; `PortSwitch.Located` builds it from `get_row_by_main` and `latlon_from_row`).

Every stated property holds for all of them. Table files arrive as already-parsed headers and rows; reading bytes, CSV decoding and pandas frames are not modelled. Floating-point numbers are modelled as `real`. A raised exception is `Raised` (or `Failed` for a whole PortSwitch evaluation, or `None` where the source itself maps the error to `None`).

## Model

| member | source | states |
|---|---|---|
| Canon.StripAccents | utils.py:7-8 | the result is the input with the combining marks filtered out, every other character kept in order (`Filter` by not-combining); text without combining marks is unchanged |
| Canon.CloseParen | utils.py:13 | the lazy `\(.*?\)` group ends at the first `)` after the `(`, and never crosses a newline; no match when every `)` is behind a newline |
| Canon.DropParensGroup | utils.py:13 | a parenthesised part up to the nearest `)` becomes one space; the text before it is kept and the rest is processed again |
| Canon.DropParensNoOpen | utils.py:13 | text without `(` is left unchanged by the substitution |
| Canon.Depunct | utils.py:14 | same length; each punctuation character becomes a space and every other character is kept |
| Canon.Clean | utils.py:11-14 | the text that reaches `split()` holds only characters that survive canonicalisation |
| Canon.Words | utils.py:15 | `split()` yields non-empty tokens without whitespace, built from characters of the text |
| Canon.WordLenBeforeSpace | utils.py:15 | a token ends at the first whitespace character, whatever follows it |
| Canon.WordsFirst | utils.py:15 | text starting with a non-space character splits into its first maximal non-space run followed by the tokens of the rest |
| Canon.FirstWordBeforeSpace | utils.py:15 | before a whitespace character the first token is the same run whatever follows the whitespace |
| Canon.WordsAtSpaceStep | utils.py:15 | joining at whitespace splits as the parts do once it does so for the text after the first token |
| Canon.WordsAtSpace | utils.py:15 | splitting two texts joined by a whitespace character gives the tokens of the first followed by those of the second |
| Canon.WordsOfWord | utils.py:15 | a non-empty text without whitespace is exactly one token, itself |
| Canon.WordsOfBlank | utils.py:15 | text made only of whitespace has no tokens; with the two lemmas above this fixes `split()` as the maximal non-space runs, in order |
| Canon.DropStopwords | utils.py:15 | the tokens filtered by "not a stopword": every non-stopword token kept, in order and with its repeats, and no stopword; a list without stopwords is unchanged |
| Canon.WordsOfJoin | utils.py:15-16 | splitting tokens joined by single spaces gives the same tokens back |
| Canon.CanonName | utils.py:10-16 | no contract of its own: lower-casing, the parenthesis and punctuation substitutions, `split()`, the stopword filter and the single-space join; stated by `Canon.CanonNameCanonical`, `Canon.CanonNameIdempotent` and the Rotterdam examples |
| Canon.CanonNameCanonical | utils.py:10-16 | the result is canonical (clean characters, single spaces between tokens, none at either end), contains no stopword token, and the empty name gives "" |
| Canon.CanonNameIdempotent | utils.py:10-16 | canonicalising a canonical name changes nothing |
| Canon.CleanCanonical | utils.py:11-14 | canonical text passes unchanged through every step before `split()` |
| Canon.PortOfRotterdam | utils.py:10-16 | "Port of Rotterdam" loses its two stopwords and becomes "rotterdam" |
| Canon.RotterdamParenthesised | utils.py:10-16 | "ROTTERDAM (Port)" loses its parenthesised part and becomes "rotterdam" |
| Canon.RotterdamSpellingsAgree | utils.py:10-16 | the two spellings meet on the join key "rotterdam" |
| PyText.LStrip | data_sources.py:22 | `lstrip` keeps a suffix of its argument, starting at a non-space character |
| PyText.Strip | data_sources.py:22 | no contract of its own: `lstrip` then `rstrip`; stated by `PyText.StripInside`, `PyText.StripEnds` and `PyText.StripTrimmed` |
| PyText.RStrip | data_sources.py:22 | `rstrip` keeps a prefix of its argument, ending at a non-space character |
| PyText.StripInside | data_sources.py:22 | `strip()` keeps one contiguous piece of its argument, and only whitespace lies outside it |
| PyText.StripEnds | data_sources.py:22 | stripped text neither starts nor ends with whitespace |
| PyText.StripTrimmed | data_sources.py:63 | text that neither starts nor ends with whitespace is left unchanged, so `strip` is idempotent |
| PyText.Lower | utils.py:12 | same length; each character is lower-cased |
| PyText.Upper | data_sources.py:11 | same length; each character is upper-cased |
| PyText.Title | data_sources.py:64 | no contract of its own: `title()` upper-cases a cased character after a caseless one and lower-cases the rest; stated by `PyText.TitleFrom` and `PyText.TitleFromIdempotent` |
| PyText.TitleFrom | data_sources.py:64 | `title()` keeps the length and which characters have case, and leaves caseless characters as they are |
| PyText.TitleFromIdempotent | data_sources.py:64 | title-casing title-cased text changes nothing |
| PyText.ParseFloat | data_sources.py:33 | `float()` accepts only text made of digits, signs, a decimal point and whitespace |
| PyText.ParseFloatNatText | data_sources.py:15 | `float(str(n))` gives `n` back |
| PyText.SortedSet | data_sources.py:90 | `sorted(set(xs))` is strictly ascending in Python's string order and holds exactly the elements of `xs` |
| PyText.StrictlySortedUnique | data_sources.py:100 | two strictly sorted lists with the same elements are equal, so the sorted order of a set is unique |
| PyText.MinOf | risk.py:12 | `min` is an element of the list and no larger than any element |
| PyText.MaxOf | risk.py:12 | `max` is an element of the list and no smaller than any element |
| PyText.Filter | utils.py:15 | a list comprehension with a condition is never longer than its input, and every element it keeps satisfies the condition |
| PyText.FilterMembers | utils.py:15 | every kept element is an element of the input, and every element of the input that satisfies the condition is kept |
| PyText.FilterConcat | risk.py:14 | filtering a concatenation is the concatenation of the filtered parts, so the filter keeps the input's order and repeats |
| PyText.FilterCons | utils.py:15 | filtering from the first element: it is kept exactly when it satisfies the condition, in front of the filtered rest |
| PyText.FilterAll | risk.py:14 | a list whose every element satisfies the condition is its own filter |
| PyText.FilterNone | risk.py:14 | a list where no element satisfies the condition filters to nothing |
| PyText.AppendAssoc | utils.py:15 | concatenating lists is associative, so the tokens of joined pieces can be regrouped |
| Coords.NormaliseMarks | data_sources.py:11 | the º, ’ and ” substitutions keep the length and the hemisphere letters, and change nothing in text without those marks |
| Coords.DmsValueSign | data_sources.py:15-17 | the value is deg + min/60 + sec/3600 in magnitude, non-positive for S and W and non-negative for N and E |
| Coords.Hemisphere | data_sources.py:12-13 | `\s*([NSEW])\s*$` matches only a hemisphere letter with whitespace around it; the letter comes from the text, the other fields are the ones read so far, and the text holds no `"` |
| Coords.P1FractionDigits | data_sources.py:12 | the first pattern's fraction digits, tried from the longest run down: a reading has a hemisphere letter from the text, non-negative seconds and no `"` |
| Coords.P1Fraction | data_sources.py:12 | the optional `(?:\.\d+)?` of the seconds, tried taken before skipped: the same guarantees |
| Coords.P1Seconds | data_sources.py:12 | the seconds' whole digits, tried from the longest run down: the same guarantees |
| Coords.P1SecondsGroup | data_sources.py:12 | the optional seconds group, with its `-`/space/`'` separator tried taken, then skipped, then the group left out: the same guarantees |
| Coords.P1Minutes | data_sources.py:12 | the optional minutes, tried from the longest digit run down and at last left out: the same guarantees |
| Coords.P1AfterDegrees | data_sources.py:12 | the optional `-`/space/`°` after the degrees, tried taken before skipped: the same guarantees |
| Coords.P1Degrees | data_sources.py:12 | the degrees, tried from the longest digit run down: the same guarantees |
| Coords.Pattern1 | data_sources.py:12 | a match of the compact pattern has a hemisphere letter N/S/E/W taken from the text and non-negative seconds, and the text holds no `"` |
| Coords.P2Seconds | data_sources.py:13 | after the apostrophe the marked pattern needs seconds; a reading has a hemisphere letter and non-negative seconds |
| Coords.Pattern2 | data_sources.py:13 | a match of the marked pattern has a hemisphere letter N/S/E/W and non-negative seconds |
| Coords.P2SecondsHemi | data_sources.py:13 | the hemisphere letter read after the apostrophe is a character of that text |
| Coords.Pattern2Hemi | data_sources.py:13 | the hemisphere letter the marked pattern reads is a character of the text |
| Coords.DmsMatch | data_sources.py:12-14 | the `or` of the two patterns: a match has a hemisphere letter of the text and non-negative seconds, and text holding `"` is read by the marked pattern alone |
| Coords.ParseDms | data_sources.py:10-17 | a parsed value needs a hemisphere letter (in either case) somewhere in the token |
| Coords.Pattern2Text | data_sources.py:13 | the marked pattern reads the fields of `D°M'S"H` text back exactly |
| Coords.ParseDmsText | data_sources.py:10-17 | `_parse_dms` of `D°M'S"H` text is the signed decimal value of those degrees, minutes, seconds and hemisphere |
| Coords.DegreesOnlyMatch | data_sources.py:12 | the compact pattern reads degrees followed by a hemisphere letter with minutes and seconds 0 |
| Coords.ParseDegreesOnly | data_sources.py:15 | degrees followed by a hemisphere letter read with minutes and seconds 0 |
| Coords.TwoSpacesReadAsSeconds | data_sources.py:12 | with two spaces, "12  30N" is read by the compact pattern as 12° 0' 30" N: the first space separates the degrees, the minutes are left out, and 30 becomes the seconds |
| Coords.NoCompactReading | data_sources.py:12 | the compact pattern has no reading of "12°30'N" |
| Coords.NoMarkedReading | data_sources.py:13 | the marked pattern has no reading of "12°30'N", because its apostrophe must be followed by seconds |
| Coords.ApostropheNeedsSeconds | data_sources.py:10-17 | `_parse_dms("12°30'N")` is None |
| Coords.NoHemisphereNoDms | data_sources.py:14 | a token without a hemisphere letter is never degree–minute–second text |
| Coords.MarksAloneNoDms | data_sources.py:14 | digits and marks without a hemisphere letter give None |
| Coords.MarkedNoFloat | data_sources.py:28-29 | text holding `°` or `'` is not accepted by `float()` |
| Coords.NumberGroupRun | data_sources.py:23 | the number group of the suffix pattern is the longest leading run of its characters |
| Coords.HemisphereSuffix | data_sources.py:23 | a suffix match splits off a hemisphere letter after a non-empty number group |
| Coords.HemisphereSuffixOf | data_sources.py:23 | digits and marks followed by a hemisphere letter match the suffix pattern with exactly those two parts |
| Coords.HemisphereSuffixOfGroup | data_sources.py:23 | any run of number-group characters followed by a hemisphere letter matches the suffix pattern with exactly those two parts |
| Coords.SignedByHemisphere | data_sources.py:30 | the magnitude is kept and the sign is forced negative for S/W and positive otherwise; None stays None |
| Coords.ToFloatCoord | data_sources.py:19-34 | a missing cell gives None, a number passes through unchanged, and a hemisphere suffix forces the sign of the result; the values are stated by `Coords.DecimalSuffixValue`, `Coords.MarkedSuffixRead`, `Coords.UnsuffixedNumberRead` and `Coords.UnsuffixedMarkedRead`; cells are read with the first finding under Findings corrected (see Left out) |
| Coords.DecimalSuffixRead | data_sources.py:23-30 | decimal text with a hemisphere suffix is `float()` of the number group, signed by the hemisphere |
| Coords.DecimalSuffixValue | data_sources.py:26-30 | so decimal text `d` with a suffix reads as −abs(d) for S and W and as abs(d) for N and E |
| Coords.TwelveFiveSouth | data_sources.py:19-34 | "12.5S" reads as −12.5 |
| Coords.UnsuffixedNumberRead | data_sources.py:31-34 | without a hemisphere suffix, text without `°` or `'` is read by `float()` alone |
| Coords.UnsuffixedMarkedRead | data_sources.py:31-32 | without a hemisphere suffix, text holding `°` or `'` is read by `_parse_dms` alone |
| Coords.NaturalCellRead | data_sources.py:31-34 | a natural number's text in an incident cell reads as that number |
| Coords.ToFloatCoordAsWritten | data_sources.py:19-34 | no contract of its own: `_to_float_coord_general` exactly as written, the first finding's as-written half; stated by `Coords.DmsSuffixLostAsWritten` and `Coords.MarkedSuffixLostAsWritten` |
| Coords.DmsSuffixLostAsWritten | data_sources.py:23-30 | as written, `D°M'S"H` text in an incident cell is dropped (None) |
| Coords.MarkedSuffixLostAsWritten | data_sources.py:26-29 | as written, any marked number group with a hemisphere suffix gives None |
| Coords.DmsSuffixRead | data_sources.py:23-30 | as intended, the same text gives its signed decimal degrees |
| Coords.MarkedSuffixRead | data_sources.py:23-30 | as intended, marked text with a suffix is parsed together with its hemisphere letter and then signed |
| Coords.FixLon360 | data_sources.py:36-40 | None stays None; a longitude above 180 wraps by −360; one below −180 is rejected; the rest pass unchanged |
| Coords.LastWithStrip | data_sources.py:44 | `{c.strip(): c}` keeps, for a stripped name, a column with that stripped name; without one, no column strips to it |
| Coords.FirstAliasKey | data_sources.py:45-46 | the first stripped column name that is an alias, present among the columns; None only when no stripped column name is an alias |
| Coords.AliasColumn | data_sources.py:45-46 | the chosen column is a column of the table whose stripped name is an alias |
| Coords.PrefixColumn | data_sources.py:48-51 | the fallback column is a column whose lower-cased name starts with one of the prefixes |
| Coords.RowPoint | data_sources.py:54-57 | a row yields a point only when both cells convert, the longitude is fixed, and both lie in range; cells are read with the first finding under Findings corrected (see Left out) |
| Coords.RowPoints | data_sources.py:54-57 | the points are exactly the points the rows yield, all in range; cells are read with the first finding under Findings corrected (see Left out) |
| Coords.Dedup | data_sources.py:58 | `drop_duplicates` keeps the same points, each once |
| Coords.CleanPiracy | data_sources.py:42-58 | no table, no row or no column gives an empty table; so does a missing latitude or longitude column; otherwise exactly the distinct in-range points of the rows; cells are read with the first finding under Findings corrected (see Left out) |
| Coords.CommaSubAsWritten | data_sources.py:111 | no contract of its own: the `(\d),(\d)` substitution with the replacement `\1.\2` taken literally, as written; stated by `Coords.CommaSubChars` and `Coords.BackslashAfterSub` |
| Coords.CommaSubChars | data_sources.py:111 | as written, the `(\d),(\d)` substitution produces only characters of the text or of the literal replacement `\1.\2` |
| Coords.BackslashAfterSub | data_sources.py:111 | as written, any digit–comma–digit match leaves a backslash in the text |
| Coords.DecimalComma | data_sources.py:111 | as intended, the `(\d),(\d)` substitution keeps the length of the text |
| Coords.DecimalCommaChars | data_sources.py:111 | as intended, the `(\d),(\d)` substitution changes nothing but commas, each into a point |
| Coords.CommaFreeKept | data_sources.py:111 | text without a comma passes the `(\d),(\d)` substitution unchanged |
| Coords.DecimalCommaOf | data_sources.py:111 | digits, a comma and digits become the same digits around a point |
| Coords.PointNumber | data_sources.py:112 | `float()` reads digits, a point and digits as the whole part plus the fraction |
| Coords.GazetteerCoordAsWritten | data_sources.py:110-116 | no contract of its own: `_to_float_coord` of `latlon_from_row` exactly as written, the second finding's as-written half; stated by `Coords.DecimalCommaLostAsWritten` and `Coords.TwelveCommaFiveLost` |
| Coords.DecimalCommaLostAsWritten | data_sources.py:110-116 | as written, every coordinate of the form digits, comma, digits is unsupported (None for the ValueError) |
| Coords.TwelveCommaFiveLost | data_sources.py:110-116 | as written, `12,5` is unsupported |
| Coords.DecimalCommaRead | data_sources.py:110-116 | as intended, digits, a comma and digits read as the whole part plus the fraction |
| Coords.TwelveCommaFiveRead | data_sources.py:110-116 | as intended, `12,5` reads as 12.5 |
| Coords.GazetteerCoord | data_sources.py:110-116 | no contract of its own (corrected, see Left out); stated by `Coords.DecimalCoord`, `Coords.ReadAsFloat`, `Coords.DecimalCommaRead`, `Coords.DmsCoord`, `Coords.BlankCoordRejected` and `Coords.ApostropheCoordRejected` |
| Coords.DecimalCoord | data_sources.py:112 | a natural number's text reads as that number |
| Coords.ReadAsFloat | data_sources.py:110-112 | text that `float()` accepts after stripping and the decimal-comma substitution is read as that number |
| Coords.DmsCoord | data_sources.py:113-116 | `D°M'S"H` text reads as its signed decimal degrees |
| Coords.BlankCoordRejected | data_sources.py:110-116 | an empty or blank coordinate is rejected (None for the ValueError): `float("")` fails and there is no hemisphere letter |
| Coords.ApostropheCoordRejected | data_sources.py:110-116 | "12°30'N" is neither a number nor degree–minute–second text, so the coordinate is rejected |
| Coords.LatLonFromRow | data_sources.py:109-117 | no contract of its own (corrected, see Left out): both coordinates through `Coords.GazetteerCoord`; stated by `Coords.LatLonFromDecimalRow` and `Coords.LatLonFromDmsRow` |
| Coords.LatLonFromDecimalRow | data_sources.py:109-117 | a row with decimal latitude and longitude gives them back |
| Coords.LatLonFromDmsRow | data_sources.py:109-117 | a row with degree–minute–second fields gives their signed decimal degrees |
| Gazetteer.HeadBeforeSeparator | data_sources.py:63 | the first piece of `re.split(r"[(/,]\| - ")` is a separator-free prefix, and a separator follows it when it is shorter than the text |
| Gazetteer.NormCountry | data_sources.py:60-62 | a missing country is "Unknown" |
| Gazetteer.NormCountryShape | data_sources.py:63-64 | a normalised country has no separator and no surrounding whitespace |
| Gazetteer.UnknownIsNormal | data_sources.py:60-64 | "Unknown" normalises to itself |
| Gazetteer.NormCountryIdempotent | data_sources.py:60-64 | normalising a normalised country changes nothing |
| Gazetteer.CountryColumn | data_sources.py:85-88 | the first column whose lower-cased name contains "country"; None when no column does |
| Gazetteer.MainNames | data_sources.py:90 | holds exactly the non-empty main port names of the rows |
| Gazetteer.Grouped | data_sources.py:93-98 | no contract of its own: each country's main names in row order, the specification of the grouping loop; stated by `Gazetteer.GroupedMembers` |
| Gazetteer.GroupByCountry | data_sources.py:93-98 | the grouping loop builds each country's names in row order |
| Gazetteer.GroupedMembers | data_sources.py:93-98 | a name is listed under a country exactly when some named row of that country has it; no country gets an empty list |
| Gazetteer.SortGroups | data_sources.py:99-100 | same countries and same names; each list sorted and without repeats, and empty only where it was |
| Gazetteer.PortsByCountry | data_sources.py:93-100 | specification predicate used by `Gazetteer.LoadWpi`: every list sorted and non-empty, and a name listed under a country exactly when a named row of that country has it |
| Gazetteer.LoadWpi | data_sources.py:66-102 | no rows or a missing required column give the empty gazetteer; otherwise the rows, the sorted distinct main names, the country column, and for each normalised country exactly its ports, sorted and distinct |
| Gazetteer.RowByMain | data_sources.py:104-107 | a row is found exactly when some row has the name, and the one found has it |
| Gazetteer.FirstMatch | data_sources.py:105-106 | the first row with the name is the one returned |
| Gazetteer.NoMatch | data_sources.py:107 | no row with the name gives None |
| Gazetteer.GetRowByMain | data_sources.py:104-107 | the scan returns the first row whose main port name is `name`, or None |
| Congestion.FirstColumn | data_sources.py:131-134 | the first column whose lower-cased name is one of the accepted names; None exactly when no column's is |
| Congestion.ColumnsOf | data_sources.py:136-138 | the columns are usable exactly when both a name column and a wait column exist |
| Congestion.FieldText | data_sources.py:140 | a missing field reads as "None" |
| Congestion.WaitValue | data_sources.py:141 | the wait is the number when the field parses, and 0.0 otherwise |
| Congestion.CongestionEntry | data_sources.py:142-149 | a row assigns (canonical key, wait) exactly when its key is non-empty |
| Congestion.ByName | data_sources.py:144-149 | no contract of its own: the index the row loop fills; stated by `Congestion.ByNameKeys` and `Congestion.ByNameLastWins` |
| Congestion.ByNameKeys | data_sources.py:144-149 | the index holds exactly the non-empty canonical keys of the rows |
| Congestion.ByNameLastWins | data_sources.py:144-149 | each key holds the wait of the last row that has it |
| Congestion.KeyOrderOfIndex | data_sources.py:144-149 | the key order (the dict's iteration order) lists the index's keys, each once |
| Congestion.Num | data_sources.py:153-155 | a present field gives exactly what `float()` makes of it (None when it does not parse); a missing field gives None |
| Congestion.GeoOf | data_sources.py:156-158 | a row enters the geo table exactly when both coordinates parse, with its name, wait and coordinates |
| Congestion.GeoTable | data_sources.py:158 | `dropna` keeps exactly the entries of rows whose coordinates both parse |
| Congestion.LoadCongestion | data_sources.py:120-160 | no rows or no name/wait column give empty data; otherwise the index filled row by row, its key order, and the geo table when both coordinate columns exist |
| Congestion.AliasEntry | data_sources.py:171-174 | an alias assignment has both canonical names non-empty |
| Congestion.Aliases | data_sources.py:169-174 | no contract of its own: the alias map the row loop fills; stated by `Congestion.AliasesLastWins` and `Congestion.LoadAliasMap` |
| Congestion.AliasesLastWins | data_sources.py:169-174 | only names some row assigns are mapped, each to the non-empty target of the last row naming it |
| Congestion.LoadAliasMap | data_sources.py:162-175 | the loop leaves exactly the alias map of the rows |
| Routing.ListToLatLon | routing.py:5-6 | same length; each (lon, lat) becomes (lat, lon) |
| Routing.ListToLatLonInvolution | routing.py:5-6 | swapping twice gives the original list back |
| Routing.RouteCache.constructor | routing.py:8 | an empty memo of size 4096 in front of the library |
| Routing.RouteCache.Query | routing.py:8-10 | the answer is always the library's answer; a hit keeps the memo and moves the key to most-recent; a miss stores the answer and evicts the least-recently used key when full |
| Routing.QueryFor | routing.py:13 | the query is (A lon, A lat, B lon, B lat, "km") |
| Routing.ComputeRoute | routing.py:12-17 | the library's vertices and kilometres, with the nautical miles converting back to those kilometres |
| Routing.KmToNm | routing.py:16 | NM / 0.539957 is the km |
| Routing.NmToKm | app.py:452 | converting the result to NM gives the input back |
| Routing.KmNmRoundTrip | routing.py:16 | km → NM → km and NM → km → NM are both the identity |
| Routing.EtaHours | routing.py:19-20 | None exactly when the speed is not positive; otherwise hours × speed = distance |
| Routing.EtaOrZero | portswitch.py:118 | 0 when the speed is not positive; otherwise hours × speed = distance |
| Routing.EtaMonotone | routing.py:20 | at a fixed positive speed a longer distance never takes less time |
| Voyage.FootprintOf | app.py:248-251 | fuel × 24 = consumption × hours; CO₂ = fuel × factor; cost = fuel × price |
| Voyage.FootprintAdditive | portswitch.py:122-125 | fuel, CO₂ and cost of two stretches of time add up |
| Voyage.FootprintMonotone | portswitch.py:122-125 | with non-negative parameters, more hours never burn, emit or cost less |
| Voyage.VoyageFootprint | app.py:245-251 | all zeros when the speed is not positive; otherwise fuel × 24 × speed = consumption × distance |
| Voyage.WorkedExample | app.py:245-251 | 9000 NM at 18 kn on 30 t/day with factor 3.114 and $600/t takes 500 h and gives 625 t of fuel, 1946.25 t of CO₂ and $375,000 |
| Voyage.Co2Intensity | app.py:252 | intensity × max(distance, 1e-6) = CO₂ × 1000 |
| Risk.BufferDegrees | risk.py:9 | degrees × 111.32 = buffer in km |
| Risk.Lons | risk.py:11 | the longitudes of the route, in order |
| Risk.Lats | risk.py:11 | the latitudes of the route, in order |
| Risk.BoxOf | risk.py:11-13 | the box is the route's extent widened by 1.5 × buffer on every side: every vertex lies inside it, and each edge is attained by a vertex |
| Risk.Candidates | risk.py:14 | never more candidates than incidents; an incident is a candidate exactly when it lies inside the box (inclusive; NaN never does) |
| Risk.CandidatesFiltered | risk.py:14 | the candidates are the incidents filtered by the box test, so they keep the table's order and repeats |
| Risk.HitCount | risk.py:17-20 | no contract of its own: the candidates inside the corridor, counted; stated by `Risk.HitCountBounds` |
| Risk.HitCountBounds | risk.py:17-20 | hits never exceed candidates; none when no candidate is in the corridor, and all when every one is |
| Risk.PiracyCount | risk.py:4-21 | no contract of its own: the count the route summary uses; `Risk.PiracyHits` computes it and `Risk.RiskBounds` bounds it |
| Risk.PiracyHits | risk.py:4-21 | no table or an empty one gives (0, 0); a route of fewer than two vertices raises; otherwise (hits among the box candidates, total incidents); the result is `Risk.PiracyCount`, which the route summary uses |
| Risk.RiskBounds | risk.py:11-20 | 0 ≤ hits ≤ candidates ≤ total, and an incident on a route vertex is always a candidate |
| PortSwitch.RemoveAll | portswitch.py:44 | `replace(pat, "")` never lengthens the text |
| PortSwitch.RemoveAllTrailing | portswitch.py:44 | a trailing occurrence of the pattern is removed and nothing else, when the text before it does not hold the pattern and the pattern's last character occurs nowhere earlier in it |
| PortSwitch.BaselineLabelDropped | portswitch.py:44 | "<name> (baseline)" gives back the name, for every name that does not itself hold " (baseline)" |
| PortSwitch.RemoveAllAbsent | portswitch.py:44 | a destination without " (baseline)" is looked up under its own name |
| PortSwitch.BaselineCountry | portswitch.py:45 | "Unknown" without a baseline row or a country column |
| PortSwitch.PoolBase | portswitch.py:48-51 | the baseline country's ports (none when that country is absent) in same-country mode with a country column; every port otherwise |
| PortSwitch.Pool | portswitch.py:52-53 | the base list, unchanged in front, with the baseline destination appended exactly when absent |
| PortSwitch.Locate | portswitch.py:60-62 | nothing exactly when the port has no row; raises exactly when its row's coordinates do not parse; otherwise the row's (lat, lon); cells are read with the second finding under Findings corrected (see Left out) |
| PortSwitch.Located | portswitch.py:60-62 | no contract of its own: `get_row_by_main` followed by `latlon_from_row` as a lookup (corrected, see Left out); stated through `PortSwitch.Locate` |
| PortSwitch.RadiusFiltered | portswitch.py:56-66 | no contract of its own: the candidates the radius loop keeps; stated by `PortSwitch.RadiusFilteredMembers`, `PortSwitch.NoRadiusKeepsAll` and `PortSwitch.FilterByRadius` |
| PortSwitch.RadiusFilteredMembers | portswitch.py:56-66 | the filter keeps exactly the candidates with coordinates within the radius (or all located ones when the radius is not positive); it raises exactly when a candidate's coordinates do not parse |
| PortSwitch.NoRadiusKeepsAll | portswitch.py:63 | with a non-positive radius every candidate with coordinates is kept |
| PortSwitch.FilterByRadius | portswitch.py:56-64 | the loop computes the radius filter |
| PortSwitch.DropName | portswitch.py:69 | keeps exactly the candidates other than the origin |
| PortSwitch.FirstMax | utils.py:26-31 | `extractOne` picks the first choice with the highest score; None only for no choices |
| PortSwitch.FuzzyHit | portswitch.py:88-92 | none without data or keys; a match is a non-empty key of the index that scores at least the threshold, no key scores higher, and it is a first best-scoring key (`extractOne`'s choice) |
| PortSwitch.FuzzyHitFirstBest | portswitch.py:88-92 | with data, a match exists exactly when the first best-scoring key is non-empty and scores at least the threshold, and then it is that key |
| PortSwitch.Nearest | portswitch.py:100-104 | the first entry with the smallest distance below 1e18; none only when every distance is at least 1e18 |
| PortSwitch.NearestEntry | portswitch.py:100-104 | the strict-`<` scan finds that entry and its distance |
| PortSwitch.GeoHit | portswitch.py:98-106 | a geo wait needs a geo table and a positive radius, and is the wait of an entry within the radius; it exists exactly when the nearest entry lies within the radius, and it is that entry's wait |
| PortSwitch.GeoHitWithinRadius | portswitch.py:98-106 | some entry within a positive radius (below 1e18 km) always yields a geo wait |
| PortSwitch.GeoNearest | portswitch.py:98-106 | the geo step of the resolver computes that wait |
| PortSwitch.WaitFor | portswitch.py:74-107 | no contract of its own: the alias → exact → fuzzy → geo → 0 chain; stated by `PortSwitch.NoDataNoWait`, `PortSwitch.AliasBeforeExact`, `PortSwitch.WaitIsStored` and `PortSwitch.ResolveKey` |
| PortSwitch.NoDataNoWait | portswitch.py:75-76 | without congestion data every port waits 0 |
| PortSwitch.AliasBeforeExact | portswitch.py:80-85 | an alias whose target is in the index wins over an exact match of the key itself |
| PortSwitch.WaitIsStored | portswitch.py:74-107 | a resolved wait is 0, a stored wait of the index, or a wait of the geo table |
| PortSwitch.ResolveKey | portswitch.py:78-107 | the chain computes the specified wait for a canonical key |
| PortSwitch.ResolveWait | portswitch.py:74-107 | `resolve_wait_for_port` is the chain applied to the canonical name |
| PortSwitch.Assess | portswitch.py:117-137 | a candidate row carries the library's route from the origin; ETA × speed = distance (ETA 0 at a non-positive speed); adjusted ETA = ETA + wait; and fuel, CO₂ and cost are priced on the adjusted ETA |
| PortSwitch.AssessedPorts | portswitch.py:110-137 | one row per located candidate, in candidate order; raises exactly when a candidate's coordinates do not parse |
| PortSwitch.AssessAll | portswitch.py:110-137 | the candidate loop computes those rows |
| PortSwitch.NormCol | portswitch.py:145-149 | each value is min–max scaled between the column's min and max, 0 when they coincide |
| PortSwitch.NormColBounds | portswitch.py:145-149 | every normalised value lies in [0, 1] |
| PortSwitch.NormColMonotone | portswitch.py:149 | normalisation keeps the order of values |
| PortSwitch.NormColMin | portswitch.py:149 | a smallest value maps to 0 |
| PortSwitch.NormColMax | portswitch.py:149 | a largest value maps to 1 unless the column is constant |
| PortSwitch.NormColConstant | portswitch.py:147-148 | a constant column maps to zeros |
| PortSwitch.Score | portswitch.py:159-164 | no contract of its own: the weighted sum of the four normalised metrics; stated by `PortSwitch.ScoreMonotone`, `PortSwitch.ScoreBounds` and `PortSwitch.DominanceOrdersScores` |
| PortSwitch.ScoreTable | portswitch.py:151-164 | one scored row per result, in order, with its four normalised columns and weighted score |
| PortSwitch.ScoreMonotone | portswitch.py:159-164 | with non-negative weights the score never decreases when any metric grows |
| PortSwitch.ScoreBounds | portswitch.py:151-164 | with non-negative weights every score lies between 0 and the sum of the weights |
| PortSwitch.DominanceOrdersScores | portswitch.py:151-164 | a candidate no worse on ETA, wait, cost and CO₂ never scores worse |
| PortSwitch.Insert | portswitch.py:166 | inserting into a sorted table keeps it sorted and adds exactly that row |
| PortSwitch.SortByScore | portswitch.py:166 | the table in ascending score order, a permutation of the input |
| PortSwitch.BestIsMinimal | portswitch.py:166-167 | the first sorted row has the smallest score |
| PortSwitch.Rank | portswitch.py:139-168 | no results give no result; otherwise a sorted permutation of the scored table whose best row is its first and has the least score |
| PortSwitch.EvaluationOf | portswitch.py:19-168 | no contract of its own: `evaluate_portswitch` stage by stage; stated by `PortSwitch.Evaluate` and `PortSwitch.RankedProperties` |
| PortSwitch.Evaluate | portswitch.py:19-168 | `evaluate_portswitch` computes the staged evaluation |
| PortSwitch.RankedProperties | portswitch.py:19-168 | a ranked evaluation has a route summary, never offers the origin, is in ascending score order, and its best row has the least score |
| App.Permutations | app.py:217 | no contract of its own: `itertools.permutations` in its order; stated by `App.PermutationsSound`, `App.PermutationsComplete` and `App.PermutationsCount` |
| App.RemoveAtMultiset | app.py:217 | removing one position removes one occurrence of its element |
| App.PermutationsSound | app.py:217 | every ordering produced is a rearrangement of the stops |
| App.PermutationsComplete | app.py:217 | every rearrangement of the stops is produced |
| App.PermutationsCount | app.py:217 | n stops have n! orderings |
| App.Names | app.py:218 | the names tried start with the origin and end with the destination, around the ordering |
| App.ResolveName | app.py:220-225 | the origin's and destination's names resolve to their own points first; any other name raises or is missing exactly when its gazetteer lookup does, and otherwise takes the looked-up (lat, lon); a resolved point carries the name |
| App.ResolveAll | app.py:219-226 | a resolved path has one point per name, point `i` being what name `i` resolves to, and carrying that name |
| App.ResolveAllFirstFailure | app.py:219-226 | the path fails exactly when some name does not resolve, and then the first such name decides between raising and none |
| App.ResolvePrefixFails | app.py:224 | once a prefix fails to resolve, the whole list fails the same way |
| App.ResolvePath | app.py:219-226 | the resolving loop computes that path |
| App.SumNm | app.py:227-229 | the loop sums the NM of consecutive legs |
| App.BestOf | app.py:216-231 | raises exactly when some ordering raises; none exactly when no ordering resolves; otherwise the first resolved ordering with the least NM total, strictly better than every earlier one |
| App.BestOfSnoc | app.py:230 | the search over one more ordering is one more comparison step |
| App.BestRaisedAfter | app.py:225 | a raise in any ordering makes the whole search raise |
| App.Tries | app.py:217-226 | one resolution per ordering, in `itertools` order |
| App.BestOrder | app.py:215-232 | the search loop returns the best ordering's path, none, or raises, as specified |
| App.OptimisedPathShape | app.py:217-232 | the optimised path starts at the origin, visits every stop exactly once in some order and ends at the destination |
| App.PathOfOrdering | app.py:218-225 | a resolved ordering gives the origin, the stops in that order, and the destination |
| App.ChosenPath | app.py:212-234 | without stops in play the path is origin → destination; with stops but no optimisation it is the origin alone |
| App.ChoosePath | app.py:212-234 | the app's path choice computes that path |
| App.Assembled | app.py:237-243 | no contract of its own: the legs and totals the assembling loop builds; stated by the `App.Assembled*` lemmas, `App.SinglePointRoute` and `App.BuildRoute` |
| App.AssembledLegCount | app.py:238-243 | one leg summary per consecutive pair of points |
| App.AssembledLeg | app.py:243 | leg summary `i` names points `i` and `i + 1` and carries that leg's km and NM |
| App.AssembledTotals | app.py:242 | the NM total equals the search's sum, and it is the km total in nautical miles |
| App.AssembledStart | app.py:241 | the route starts with the whole first leg |
| App.AssembledEnd | app.py:241 | the route ends at the last vertex of the last leg |
| App.SinglePointRoute | app.py:238 | a one-point path has no legs, no vertices and zero length |
| App.BuildRoute | app.py:237-243 | the assembling loop computes the assembled route |
| App.Summary | app.py:245-267 | the summary carries the origin and destination names, the totals, the ETA (None at a non-positive speed), the footprint, the piracy count, and the CO₂ intensity per NM with the distance floored at 1e-6 |
| App.AltOf | app.py:269-285 | an alternate summary exists exactly when there is a target; its vertices, km and NM are the library's route from the origin to the target, its ETA is `EtaHours` of that NM, and it is priced like the main route without a wait |
| App.StopsWithoutOptimisation | app.py:213-234 | stops chosen without optimisation leave a route with no legs, and a non-empty incident table then makes the computation raise |
| App.DirectRoute | app.py:233-243 | without stops the summary is the single origin → destination leg |
| App.WithBest | app.py:449-459 | the summary takes the candidate's port, NM, km = NM / 0.539957, adjusted ETA, footprint and route; the origin, legs, risk and intensity are untouched |
| App.ChosenKmIsRouteLength | app.py:452 | after choosing a candidate, the summary's km is the sea-route length of the candidate's route |
| App.Session.constructor | app.py:22-24 | both summaries start empty |
| App.Session.Submit | app.py:212-285 | on success both summaries are replaced by the computation's; when it raises nothing changes |
| App.Session.ChooseBestRoute | app.py:449-459 | the summary becomes the best candidate's summary; the alternate summary is unchanged |

## Left out

- The sea-route library, the haversine formula, rapidfuzz's `token_sort_ratio` and shapely's buffered-line test are parameters. Their numerical results (the haversine trigonometry at portswitch.py:10-17, the buffer geometry at risk.py:8 and risk.py:15) are not modelled.
- `unicodedata.normalize("NFKD", ...)` is not modelled. `Canon.StripAccents` works on already-decomposed text, and combining marks are recognised by Unicode block.
- Case mapping (`lower`, `upper`, `title`) covers ASCII letters only. Other characters are treated as caseless.
- `float()` is modelled for decimal text (optional sign, digits, optional fraction, surrounding whitespace). Exponents, `inf`, `nan` and underscores are not accepted by the model.
- Congestion.WaitValue reads a wait with that same `float()` grammar, where data_sources.py:141 uses `pd.to_numeric(errors="coerce")`. Text that only pandas accepts (an exponent, `inf`) gives 0.0 in the model.
- The regular expressions of `_parse_dms` (data_sources.py:12-13) are modelled with ASCII digits for `\d` and Python's whitespace for `\s`. Other Unicode decimal digits, which Python's `\d` also matches, are not.
- Coords.ToFloatCoord models the incident-cell parser with the first finding below corrected: a `D°M'S"H` cell such as `12°30'15"N` gives its signed value, where data_sources.py:26-29 as written gives None. The code as written is `Coords.ToFloatCoordAsWritten`.
- Coords.RowPoint uses that corrected parser, so a row with a `12°30'15"N` cell yields a point where data_sources.py:54-56 as written drops the row.
- Coords.RowPoints, built on `Coords.RowPoint`, keeps such rows for the same reason.
- Coords.CleanPiracy, built on `Coords.RowPoints`, keeps `D°M'S"H` incidents that the source drops.
- Coords.GazetteerCoord models `_to_float_coord` of `latlon_from_row` with the second finding below corrected: a coordinate `12,5` reads as 12.5, where data_sources.py:111-115 as written raises ValueError. The code as written is `Coords.GazetteerCoordAsWritten`.
- Coords.LatLonFromRow uses that corrected reading, so a row with a `12,5` coordinate gives a point where the source raises.
- PortSwitch.Locate reads a port's coordinates with the corrected `Coords.LatLonFromRow`, so a `12,5` coordinate gives a point instead of raising.
- PortSwitch.Located builds the gazetteer lookup from that corrected `Coords.LatLonFromRow`.
- PortSwitch.Evaluate therefore locates and ranks a candidate with a `12,5` coordinate, where the source's `evaluate_portswitch` raises.
- App.ResolveName takes the gazetteer lookup as a parameter. When it is `PortSwitch.Located`, the correction above applies to it.
- App.BestOrder applies to its lookup parameter in the same way.
- App.Session.Submit applies to its lookup parameter in the same way.
- The `difflib.get_close_matches` fallback (portswitch.py:93-96), used only when rapidfuzz is not installed, is left out; the fuzzy step always uses the scorer.
- PortSwitch.FuzzyHit: the threshold is taken from the controls. The default of 88 for a missing `fuzzy_threshold` key (portswitch.py:91) is not modelled, and neither is the unused `fuzzy_threshold` argument.
- PortSwitch.SortByScore: pandas' default `sort_values` is not a stable sort. The model uses a stable insertion sort, so the order among equal scores is the model's, not necessarily pandas'.
- PortSwitch.NormCol: NaN values in a metric column (`pd.isna(rng)`) are not modelled, because every metric is a real number here.
- Congestion waits are taken as they parse. Negative waits are not clamped, because the code does not clamp them.
- Aliasing is not modelled: appending the baseline destination to the shared `ports_by_country` list (portswitch.py:49-53) also grows the cached gazetteer's list. The model's pool is a fresh value.
- The cached `ports_by_country` of later calls is therefore not modelled either.
- Risk.PiracyHits: incident cells are already-cleaned numbers or missing. The `float(...)` failure at risk.py:18-19 is modelled as a missing value.
- File and CSV reading, byte decoding, pandas frames, `st.cache_data`, Streamlit widgets, messages and the map are left out. This includes `draw_portswitch_markers` (portswitch.py:170-178), the weather layer (weather_providers.py is not part of this model) and the rendering after app.py:287.
- The resolution of the origin and destination before app.py:212 is taken as given: the request carries their points, and a failed lookup stops the app before the modelled part.
- App.Session.ChooseBestRoute keeps the source's behaviour: the CO₂ intensity, leg summaries and risk counts are not refreshed for the new destination.
- `evaluate_portswitch` reads the route summary's first vertex for the origin. An empty vertex list (an `IndexError` in the source) is the `Failed` outcome.
- Routing.ComputeRoute calls the library directly. That the `lru_cache` memo is transparent is stated separately by `Routing.RouteCache.Query`.
- The cost of the permutation search (n! orderings, each with n + 1 route queries) is counted (`App.PermutationsCount`) but not bounded further.

## Findings

| source | as written | input that shows it | evidently intended | confidence | as-written member | corrected member |
|---|---|---|---|---|---|---|
| data_sources.py:23-30 | in the hemisphere-suffix branch, `_parse_dms(num)` is called on the number group without its hemisphere letter; `_parse_dms` requires a letter, so it always gives None, and `float(num)` then fails on the `°`/`'` marks | an incident cell `12°30'15"N` (any `D°M'S"H` text) gives None and the incident is dropped | the degree–minute–second value, signed by the hemisphere (`12°30'15"N` → 12.5041…) | high — not executed | Coords.DmsSuffixLostAsWritten | Coords.DmsSuffixRead |
| data_sources.py:111 | the replacement `r"\\1.\\2"` inserts literal backslashes instead of the two digits, so `12,5` becomes `1\1.\2`, which neither `float()` nor `_parse_dms` accepts, and `latlon_from_row` raises | a gazetteer coordinate `12,5` (any digits, comma, digits) | the decimal comma read as a point: `12,5` → 12.5 | high — not executed | Coords.DecimalCommaLostAsWritten | Coords.DecimalCommaRead |
