# Epidemic map script: the data-shaping core in Dafny

`getdata_pltMap.py` fetches a JSONP-style response from a news site. The
JSON payload sits inside a callback wrapper, `<ignored>(<JSON>)`. The script
turns that payload into two things:

- a national time series (`get_daily_cn`): confirmed, deaths, suspected,
  cured and date columns;
- a per-province choropleth (`china_value` and `plot_distribution`).

This project models the part of the script that shapes data. Each step
becomes a Dafny function or method, and Python exceptions become a
`Result`:

- `payload.dfy`: the regular expression `\(+([^)]*)\)+` and `re.search`'s
  leftmost, greedy match. A `None` result stands for the failed search whose
  `.group(1)` would raise.
- `values.dfy`: the scalars of the parsed payload (`null`, numbers,
  strings), `dict.get` with a default, Python's `int()` on them, and the
  exceptions the script can raise (`KeyError`, `TypeError`, `ValueError`,
  `AttributeError`).
- `text.dfy`: `str.split` on one character, `str.strip`, and the substring
  test `k in s`.
- `collect.dfy`: a loop or comprehension that applies a raising step to
  every element. It returns every result, or the exception of the first
  element that raises.
- `history.dfy`: `get_daily_cn`.
  - `ParseRow` is the body of the record loop. Its order of evaluation
    decides which exception wins: date split, then `strptime`, then the
    three counts.
  - `DailySeries` is the specification of the whole function.
  - `GetDailyCn` is the imperative method: five lists appended in a loop,
    then the `None` filter, the padding loop and the `int()` comprehension.
- `regions.dfy`: `china_value`.
  - A Python dict is modelled as an insertion-ordered `Dict`: its keys in
    order plus a map.
  - `CityValue` is the specification of the loop, and `ChinaValue` is the
    loop itself.
- `choropleth.dfy`: the colouring loop of `plot_distribution`.
  - `Bucket` is the if/elif colour chain.
  - `ShapeColour` and `ScanKeys` model the inner key scan, with its
    `is_reported` flag, its `break` and `count_iter`.
  - `ColourShapes` and `PlotDistribution` model the outer loop over shapes.
    It skips islands (stripped `OWNER` different from stripped `FCNAME`) and
    draws one polygon per remaining shape.
  - A drawn polygon is recorded as a `Patch(shape index, colour)`. The
    global `count_iter` is returned with the patches, because the function
    resets it to 0 before the loop.

Every imperative method is proved equal to its specification function:
`GetDailyCn` to `DailySeries`, `ChinaValue` to `CityValue`, `ScanKeys` to
`ShapeColour` and `PlotDistribution` to `ColourShapes`. The lemmas are
stated about those functions.

## Model

| member | source | states |
|---|---|---|
| Payload.ExtractPayload | getdata_pltMap.py:24 | a payload is found exactly when some `(` is later followed by a `)`; it is the text from the end of the leftmost run of `(` up to the first `)` after it, so it never contains `)` |
| Payload.CutIsUnique | getdata_pltMap.py:77 | the leftmost match is unique: two cuts of the same text are the same cut |
| Payload.RunOfParens | getdata_pltMap.py:24 | a run of several `(` is skipped as a whole: `f((x))` yields `x` |
| Payload.WrappedPayload | getdata_pltMap.py:77 | for `prefix(body)suffix`, where the prefix has no `(` and the body has no `)` and does not start with `(`, exactly the body is cut out |
| Values.Get | getdata_pltMap.py:35-38 | `item.get(key, default)`: the stored value when the key is present, the default otherwise |
| Values.ParseInt | getdata_pltMap.py:35-37 | `int()` of a string: an optional `-` or `+` followed by ASCII digits gives their signed value; anything else raises `ValueError` |
| Values.ParseIntAccepts | getdata_pltMap.py:35-37 | `int()` of a string succeeds exactly on an optional sign followed by decimal digits; the value is the digits' value, negated after `-`, unchanged after `+` or without a sign |
| Values.ToInt | getdata_pltMap.py:35-37 | `int()` of a payload value: a number is itself, `None` raises `TypeError`, a string is read by `ParseInt` |
| Values.ToIntSpec | getdata_pltMap.py:35-37 | `int()` of a payload value fails exactly on `None` (`TypeError`, and only there) and on a string that is not a decimal literal (`ValueError`); a number keeps its value and a digit string gives the digits' value |
| Values.ParseShowInt | getdata_pltMap.py:85 | `int(str(n)) == n` for every integer n |
| Text.Split | getdata_pltMap.py:33 | `s.split('.')`: the maximal separator-free pieces between separators, at least one piece (the empty string gives `[""]`) |
| Text.SplitCount | getdata_pltMap.py:33 | `split('.')` gives one piece more than there are dots, so `month, day =` unpacks only with exactly one dot |
| Text.SplitPiecesFree | getdata_pltMap.py:33 | no piece of a split contains the separator |
| Text.JoinSplit | getdata_pltMap.py:33 | joining the pieces with the separator gives back the string |
| Text.SplitJoin | getdata_pltMap.py:33 | splitting a join of separator-free pieces gives back the pieces |
| Text.Strip | getdata_pltMap.py:137-138 | `s.strip(c)`: the longest run of `c` is removed from the front and then from the back |
| Text.StripSpec | getdata_pltMap.py:137-138 | `strip('\x00')` removes exactly a NUL-only prefix and suffix, and the result neither starts nor ends with NUL |
| Text.StripIdempotent | getdata_pltMap.py:137-138 | stripping a stripped name changes nothing |
| Text.Contains | getdata_pltMap.py:144 | `k in s` for strings: `k` is a prefix of `s` or of some suffix of `s` |
| Text.ContainsAt | getdata_pltMap.py:144 | `k in s` holds exactly when k occurs in s at some position |
| Text.EmptyIsContained | getdata_pltMap.py:144 | the empty name is in every owner name |
| Collect.MapResult | getdata_pltMap.py:43 | `[f(x) for x in xs]` where `f` may raise: the results in order (one per element), or the exception of the first element whose step raises |
| Collect.MapResultValues | getdata_pltMap.py:43 | when the comprehension succeeds, its i-th result is the step applied to the i-th element |
| Collect.MapResultSucceeds | getdata_pltMap.py:43 | the comprehension succeeds exactly when every step succeeds |
| Collect.MapResultFailure | getdata_pltMap.py:32-37 | a step that raises after steps that all succeed gives the exception of the whole loop |
| Collect.MapResultFirstFailure | getdata_pltMap.py:32-37 | a loop that raises does so at some element whose step raises and whose predecessors all succeed |
| Collect.MapResultStep | getdata_pltMap.py:32-38 | one more element that succeeds appends its result |
| History.ParseField | getdata_pltMap.py:34 | `%m` / `%d` of `strptime`: one or two ASCII digits whose value lies in the range give that value; anything else raises `ValueError` |
| History.ParseFieldForms | getdata_pltMap.py:34 | a month or day in range is read back from its plain digits, and, below 10, from its zero-padded form (`"5"` and `"05"` both give 5) |
| History.ParseFieldOnlyForms | getdata_pltMap.py:34 | those two forms are the only texts the model's field reader accepts: a read value is in range and the text is its plain or zero-padded digits (`strptime`'s `%d` also reads the space-padded `" 5"`, see Left out) |
| History.ParseDate | getdata_pltMap.py:33-34 | `item['date'].split('.')` unpacked into month and day, then `strptime('2020-%s-%s')`: `AttributeError` for a non-string, `ValueError` for a wrong number of pieces, a bad field or a day past the month's end |
| History.ParseDateSpec | getdata_pltMap.py:33-34 | a non-string date raises `AttributeError`, and any other bad date raises `ValueError`; a string date parses exactly when it splits into two 1–2-digit fields with month 1..12 and day within that month of 2020, and then it is the day 2020-month-day read from those digits (so "01.05" is 5 January) |
| History.ParseDateOfShown | getdata_pltMap.py:33-34 | every day of 2020 written as "M.D" parses back to that day |
| History.ParseRow | getdata_pltMap.py:33-38 | the body of the record loop for one record, in the script's order: `KeyError('date')` if the key is absent, then the date, then confirmed, deaths and cured read with default 0 (first exception wins); the suspected value is kept raw with default 0 |
| History.ParseRows | getdata_pltMap.py:32-38 | the record loop: the parsed row of every record in order, or the exception of the first record that fails |
| History.RawSuspects | getdata_pltMap.py:38 | the suspected column as appended: `item.get('cn_susNum', 0)` for every record, unconverted |
| History.MissingKeysReadAsZero | getdata_pltMap.py:35-38 | a missing count key reads as 0; only an explicit `null` suspected value is marked for dropping, a missing one is not |
| History.NonNull | getdata_pltMap.py:40 | `[x for x in vs if x is not None]`: never longer than its input and holds no `None` |
| History.ToInts | getdata_pltMap.py:43 | `[int(x) for x in vs]`: every conversion in order, or the exception of the first that fails |
| History.NonNullCounts | getdata_pltMap.py:40 | the `None` filter removes every `None` and keeps every other value exactly as often as it occurs |
| History.NonNullAppend | getdata_pltMap.py:40 | the filter keeps order: it distributes over concatenation |
| History.DailySeries | getdata_pltMap.py:32-45 | what `get_daily_cn` returns: the columns of the parsed rows, and the converted non-`None` suspected values followed by 1s up to the row count; or the first exception |
| History.SuspectsOfRows | getdata_pltMap.py:38 | the raw suspected column holds each record's value, 0 where the key is absent |
| History.SeriesLengths | getdata_pltMap.py:32-45 | for N records all five returned columns have length N |
| History.SeriesColumns | getdata_pltMap.py:33-37 | entry i of the date, confirmed, death and cure columns is record i, read with default 0; every date is in 2020 |
| History.PaddedValues | getdata_pltMap.py:41-43 | converting values padded with 1s gives their conversions followed by 1s |
| History.SuspectedPadding | getdata_pltMap.py:40-43 | the suspected column is the non-`None` values in their order, then 1s up to length N; the padding goes at the end, not where the `None`s were |
| History.PaddingConverts | getdata_pltMap.py:41-43 | the padding never makes the final `int()` comprehension fail |
| History.SeriesSucceeds | getdata_pltMap.py:32-43 | the extraction succeeds exactly when every record parses and every non-`None` suspected value is an integer |
| History.FirstFailure | getdata_pltMap.py:32-37 | a record that raises after records that all parse decides the exception of the whole extraction |
| History.RowsStep | getdata_pltMap.py:32-38 | one more record that parses appends its fields to each of the five lists |
| History.GetDailyCn | getdata_pltMap.py:32-45 | the two loops and the comprehensions compute `DailySeries`: the columns, or the exception of the first failing step |
| Regions.Put | getdata_pltMap.py:85 | after `d[k] = v`, k holds v and every other key keeps its presence and value; a new key k is appended to the end of the key order, and with an existing key the order is unchanged |
| Regions.Name | getdata_pltMap.py:83 | `item.get('name')`: the key a record is stored under, `None` when the record has no name |
| Regions.Count | getdata_pltMap.py:84 | `item.get('value')`: the record's count, `None` when absent |
| Regions.CityValue | getdata_pltMap.py:82-85 | what `china_value` returns: the table after `city_value[name] = int(value)` for every record in order, or the exception of the first value `int()` rejects |
| Regions.PutValid | getdata_pltMap.py:85 | assignment keeps every key exactly once and the key order equal to the key set |
| Regions.CityValueValid | getdata_pltMap.py:81-85 | the table built from any list is a well-formed dict |
| Regions.CityValueSucceeds | getdata_pltMap.py:82-85 | building the table fails exactly when some record's value is not an integer |
| Regions.FirstBadValue | getdata_pltMap.py:82-85 | the first record whose value is not an integer decides the exception |
| Regions.CityValueKeys | getdata_pltMap.py:82-85 | the table's keys are exactly the distinct names of the records (`None` for a record without a name) |
| Regions.LastOccurrenceWins | getdata_pltMap.py:85 | a name holds the integer of its last record; earlier values are overwritten, not summed |
| Regions.KeysInFirstAppearanceOrder | getdata_pltMap.py:85 | the key order is the order of first appearance of the names |
| Regions.DuplicateNameOverwrites | getdata_pltMap.py:85 | two records for 湖北 with 3 and "5" give the one-entry table 湖北 → 5 |
| Regions.ChinaValue | getdata_pltMap.py:80-88 | the record loop computes `CityValue`: the table, or the exception of the first bad value |
| Choropleth.Bucket | getdata_pltMap.py:146-155 | the if/elif chain on the count: `== 0`, `<= 10`, `<= 100`, `<= 1000`, otherwise, tested in that order |
| Choropleth.BucketBands | getdata_pltMap.py:146-155 | each colour is taken by exactly one band: 0, ≤10 except 0 (negatives included), 11..100, 101..1000, >1000; no count gets the "not reported" colour |
| Choropleth.BucketBoundaries | getdata_pltMap.py:146-155 | the exact colours at -1, 0, 1, 10, 11, 100, 101, 1000 and 1001 |
| Choropleth.BucketByThresholds | getdata_pltMap.py:146-155 | for a count ≥ 0 the colour is the palette entry indexed by how many of the band ends 0, 10, 100, 1000 it exceeds |
| Choropleth.Province | getdata_pltMap.py:137 | `info['OWNER'].strip('\x00')`: the shape's owner with NUL padding removed at both ends |
| Choropleth.IsDrawn | getdata_pltMap.py:137-140 | a shape is drawn when its NUL-stripped OWNER equals its NUL-stripped FCNAME |
| Choropleth.FirstMatch | getdata_pltMap.py:142-156 | the scan of the keys in insertion order: the index of the first key that is in the owner name (always below the key count), nothing if none is, `TypeError` at a non-string key reached first |
| Choropleth.FirstMatchNone | getdata_pltMap.py:142-144 | when every key is a string that is not in the owner name, the scan finds nothing |
| Choropleth.FirstMatchAt | getdata_pltMap.py:142-156 | the scan stops at the first key not missed: `TypeError` if it is not a string, its index if it is in the owner name |
| Choropleth.ShapeColour | getdata_pltMap.py:141-159 | the keys examined for one shape are at most all of them, and at least one when there are keys |
| Choropleth.ShapeColourNotReported | getdata_pltMap.py:158-159 | no key in the owner name: the colour is #7FFFAA after examining every key |
| Choropleth.ShapeColourAt | getdata_pltMap.py:142-156 | the first key not missed decides: a non-string key raises `TypeError`; a key found in the owner name gives the bucket of its count (never #7FFFAA) after examining its 1-based position |
| Choropleth.ColourShapes | getdata_pltMap.py:136-161 | the outer loop in shapefile order: an undrawn shape adds nothing; a drawn shape adds `Patch(index, colour)` and the keys it examined to `count_iter`; the first `TypeError` ends the loop |
| Choropleth.PatchesOfDrawnShapes | getdata_pltMap.py:136-161 | every polygon belongs to a drawn shape and has the colour the inner loop picks for that shape |
| Choropleth.PatchesInShapeOrder | getdata_pltMap.py:136-161 | polygons come in shapefile order, at most one per shape |
| Choropleth.EveryDrawnShapePatched | getdata_pltMap.py:137-140 | every shape whose stripped OWNER equals its stripped FCNAME gets a polygon |
| Choropleth.CountIterBounds | getdata_pltMap.py:133-143 | `count_iter` is at most (polygons × keys), and at least the number of polygons when there are keys |
| Choropleth.ColourStep | getdata_pltMap.py:136-161 | a skipped shape leaves the drawing unchanged; a drawn one appends its polygon and adds its examined keys to `count_iter` |
| Choropleth.ColourFailure | getdata_pltMap.py:144 | a `TypeError` while scanning one shape ends the whole loop with it |
| Choropleth.ScanKeys | getdata_pltMap.py:141-159 | the flagged inner loop with `break` computes `ShapeColour` |
| Choropleth.PlotDistribution | getdata_pltMap.py:132-161 | the outer loop, its `continue` written as a guarded block, computes `ColourShapes`: the polygons and `count_iter`, or the exception |

## Left out

- The HTTP request, the time stamp and `decode("unicode_escape")` (lines 20-23, 73-76) are left out. The model starts from the decoded text.
- `json.loads` and the navigation `.get('data')['historylist']` / `['list']` (lines 24, 77) are left out: a foreign library. The model starts from the already-parsed records. JSON booleans, floats, lists and objects are not among the modelled values, and a missing `data` key is not modelled.
- History.ParseDateSpec, History.ParseDate, History.ParseField, History.ParseFieldOnlyForms: `strptime` is modelled only as 1–2 ASCII digits per field, with a range check. Its space-padded day form (`" 5"`) is not accepted by the model.
- Values.ParseIntAccepts, Values.ParseInt, Values.ToInt, Values.ToIntSpec: `int()` of a string is modelled as an optional sign followed by ASCII digits. Python also accepts surrounding whitespace, underscores between digits and non-ASCII digits. `int()` of a JSON float (truncation) and of a boolean are not modelled.
- The regular expression's trailing `\)+` and the group boundaries of other matches do not change group 1, so they are not modelled.
- A `)` inside the JSON text truncates the payload, exactly as in the script. This follows from `Payload.ExtractPayload`; the JSON parse failure it then causes is outside the model.
- Drawing is left out (lines 51-68, 101-130, 160-166): matplotlib and Basemap, shapefile reading, legends, fonts, `print`, `savefig` and `show`. `axes.add_patch` becomes appending a `Patch` to the result.
- `china_all` (lines 80, 86) is left out: it repeatedly stores the same dict reference and is never read.
- Regions.ChinaValue: the dict is a value (`Dict`) that the loop reassigns, not an object updated in place. The script has no other reference to it that could observe aliasing.
- Choropleth.ScanKeys: the inner key loop of `plot_distribution` is written as its own method, called from the outer loop. Together they are the nested loop of lines 136-161.
- `plot_date` (the line chart) is left out: it only draws.
