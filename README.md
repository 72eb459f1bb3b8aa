# airq: neighbourhood air quality and client preferences

airq is an SMS service. A user texts a zip code and gets back that zip code's
PM2.5 readings. With the details option, the reply also recommends nearby zip
codes whose air is better. This project models two parts of it in Dafny.

- **The neighbourhood pipeline** (`quality.dfy`, module `Quality`):
  - A geohash prefix search for nearby zip codes. Each pass queries the zip
    codes whose geohash starts with the current prefix and that are not yet
    collected. It takes them nearest first and keeps those within 150 km. It
    stops at 200 entries. Otherwise it drops the prefix's last character and
    goes round again.
  - A join that keeps each zip code's latest reading.
  - A ranker. It keeps the other zip codes with a strictly better PM2.5
    category, orders them by (category, distance) and takes the first three.
- **The preference machinery** (`client_preferences.dfy`, module
  `ClientPreferences`):
  - Menu-choice and bounded-integer preferences, with their `clean`,
    `validate` and prompt.
  - Descriptors that read and write a client's JSON `preferences` column, with
    an override layer on top.
  - A registry that keeps registration order and rejects duplicate names.

Supporting modules:
- `wrappers.dfy`: `Option`/`Result`. They stand in for `None` and for raised
  exceptions.
- `decimal.dfy`: Python's `int(s)` and `str(i)` on decimal strings, with the
  round trip between them.
- `sorting.dfy`: `sorted` as an insertion sort by a total preorder.

How the model represents the system:
- **Tables.** The database tables are in-memory sequences in storage order. A
  query returns the matching rows in that order.
- **Distance and PM2.5 category.** Both are parameters. `Distance` takes
  (lon1, lat1, lon2, lat2), the argument order in which
  `_get_nearby_zipcodes` calls `haversine_distance`.
  `Pm25Level` takes a concentration to an ordered category (a `nat`).
- **Objects updated in place** are Dafny classes with `modifies`
  clauses:
  - the registry, whose `_prefs` and `_overrides` are class-level state;
  - a client's `preferences` column;
  - the descriptors, which hold no mutable state but are compared by identity
    (`is`); class references give the same comparison.
- **Loops** are methods with loop invariants: the prefix search of
  `_get_nearby_zipcodes`, the result loop of
  `_get_air_quality_metrics_for_zipcodes`, `get_name`, `get_by_index`, and the
  loop of `register_overrides`.

Behaviour of the code worth knowing:
- **Tied latest readings.** The result dictionary is overwritten row by row, so
  the last tied row in query order wins. The model does the same.
- **Checking the cap.** The 200-entry cap is checked only after each considered
  match. The loop invariant `|m| < 200` shows it is never reached at the top of
  a pass.
- **The ranker's cutoff** is a parameter. Its caller passes the target's own
  category.

## Model

| member | source | states |
|---|---|---|
| Quality.MatchesPrefix | app/airq/commands/quality.py:164-166 | A geohash passes the per-character filters exactly when the prefix is no longer than it and agrees with it at every position. |
| Quality.CandidateOf | app/airq/commands/quality.py:171-176 | Definition (no contract): the pair a row contributes is its id and `distance` applied to (row longitude, row latitude, target longitude, target latitude), the order of the `haversine_distance` call. |
| Quality.Matches | app/airq/commands/quality.py:159-168 | A pass's query returns exactly the uncollected rows matching the prefix. Every entry is such a row's (id, distance). Every such row appears. |
| Quality.RowCandidateShorterPrefix | app/airq/commands/quality.py:159-166 | A row matching a prefix also matches every shorter prefix of it. |
| Quality.SortedMatches | app/airq/commands/quality.py:169-180 | After sorting by distance, every match is still uncollected and still comes from a row matching the prefix. |
| Quality.PassCovers | app/airq/commands/quality.py:169-185 | After a pass that did not hit the cap, every row matching the pass's prefix and within 150 km is collected. |
| Quality.AddNearbyMatches | app/airq/commands/quality.py:169-184 | Adds a match only if it is within 150 km. Every added id is one of the matches, with its own distance, and earlier entries are unchanged. Stops, reporting the cap, the moment the map holds 200 entries, even right after dropping a match. When capped, the additions are exactly those of a prefix of the nearest-first matches. Keeps the target at 0 and never exceeds 200. Without the cap, every match within the radius is added. |
| Quality.NearbyPass | app/airq/commands/quality.py:161-184 | One pass for a prefix keeps the target at 0, stays within the radius and the cap, and, unless capped, collects every row matching the prefix within 150 km. |
| Quality.NearbyZipcodes | app/airq/commands/quality.py:155-187 | The target is present with distance 0. At most 200 entries. Every other entry is within 150 km and is the distance of a row sharing at least the first geohash character. Below the cap, every such row within 150 km is collected. An empty geohash, or a table holding only the target, gives exactly {target: 0}. |
| Quality.OnlyTargetRows | app/airq/commands/quality.py:155-187 | When every row is the target's own, the search result is {target: 0}. |
| Quality.MaxTimestamp | app/airq/commands/quality.py:192-198 | The grouped max(timestamp): none when the zip code has no reading, otherwise a timestamp some reading has and none exceeds. |
| Quality.JoinedRows | app/airq/commands/quality.py:200-218 | The join yields exactly the readings that sit at their zip code's maximum timestamp and whose zip code is named and requested. |
| Quality.LatestByMaxTimestamp | app/airq/commands/quality.py:192-206 | A reading joined on its zip code's maximum timestamp has no later reading of the same zip code. |
| Quality.JoinedRowIds | app/airq/commands/quality.py:200-218 | Some joined row has zip code id exactly when the id is requested, named and has a reading. |
| Quality.MetricOf | app/airq/commands/quality.py:222-228 | Definition (no contract): a result record takes its zip code and city from the name tables, its distance from the request, and its average, sensor count and category from the reading. EntriesFromLatest and AirQualityMetricsForZipcodes state what this means for the result map. |
| Quality.JoinStep | app/airq/commands/quality.py:220-228 | One iteration of the result loop keeps the keys equal to the ids seen so far, each built from one of their joined rows. |
| Quality.EntriesFromLatest | app/airq/commands/quality.py:220-228 | Every entry built from a joined row is built from a latest reading of its zip code and carries the requested distance. |
| Quality.AirQualityMetricsForZipcodes | app/airq/commands/quality.py:189-230 | The keys are exactly the requested ids that have a name and a reading, so an id with no reading is silently absent. Each entry is built from a latest reading and carries the requested distance. |
| Quality.GetAirQualityMetrics | app/airq/commands/quality.py:143-153 | Without details, only the target can appear. Either way, the target appears (at distance 0) exactly when it has a name and a reading. There are at most 200 entries, and every other one is within 150 km. Every entry carries its zip code's names and the figures of a latest reading of that zip code. |
| Quality.Candidates | app/airq/commands/quality.py:131 | The comprehension keeps, with their multiplicities, exactly the entries with another zip code string and a category strictly below the cutoff. |
| Sorting.Insert | app/airq/commands/quality.py:130-134 | Inserting into a sorted sequence adds one occurrence of the element and keeps the sequence sorted. |
| Sorting.Sort | app/airq/commands/quality.py:130-134 | `sorted` returns a sorted permutation of its input. |
| Quality.RankedCandidates | app/airq/commands/quality.py:130-133 | The candidates, permuted into (category, distance) order. |
| Sorting.SortedPrefix | app/airq/commands/quality.py:130-134 | What `[:n]` of a sorted sequence leaves out is exactly its suffix, and all of it comes after the last element kept. |
| Quality.Recommendations | app/airq/commands/quality.py:129-134 | There are min(3, number of candidates) recommendations. Each qualifies. They are in (category, distance) order and form a sub-multiset of the candidates. Any candidate left out means three were kept and it ranks no better than the last of them. |
| Quality.NoRecommendations | app/airq/commands/quality.py:130-135 | There is no recommendation exactly when no entry qualifies. |
| Quality.ExampleCandidates | app/airq/commands/quality.py:131 | With cutoff 3, the entries in categories 1 and 0 qualify and the one in category 3 does not. |
| Quality.ExampleSort | app/airq/commands/quality.py:130-133 | Category 0 at 10 km sorts before category 1 at 1 km. |
| Quality.RankerExample | app/airq/commands/quality.py:129-134 | Category beats distance: neighbours in categories 0 (10 km), 1 (1 km) and 3 (0.5 km) of a target in category 3 give [category 0, category 1]. |
| Quality.GetRecommendations | app/airq/commands/quality.py:122-141 | The message is empty exactly when no entry qualifies. Otherwise it is the header followed by one line per recommendation, in ranked order, with its city, zip code and category. |
| Decimal.ParseInt | app/airq/lib/client_preferences.py:154 | `int` accepts a non-empty digit string, with or without one leading sign, and nothing else. It gives the digits' value, negated after a minus sign. |
| Decimal.FormatInt | app/airq/lib/client_preferences.py:201 | `str` writes a minus sign exactly for a negative integer, then the magnitude's digits without a leading zero. |
| Decimal.FormatNat | app/airq/lib/client_preferences.py:200-201 | `str` of a non-negative integer is a digit string without a leading zero whose value is that integer. |
| Decimal.ParseFormatInt | app/airq/lib/client_preferences.py:200-211 | `int` reads back the integer that `str` wrote. |
| ClientPreferences.Strip | app/airq/lib/client_preferences.py:85 | The stripped input is a slice of the input with only white space cut off either end, and it neither starts nor ends with white space. |
| ClientPreferences.ChoicesClean | app/airq/lib/client_preferences.py:151-159 | Selects exactly when the input parses to an integer in 1..len(choices), and then selects choices[idx - 1]. A number that is not positive selects nothing, so negative indexing is never reached. |
| ClientPreferences.ChoicesValidate | app/airq/lib/client_preferences.py:161-165 | Succeeds exactly when some menu entry has the given value, and then returns an entry with that value. Otherwise it raises InvalidPrefValue. |
| ClientPreferences.ChoicesPrompt | app/airq/lib/client_preferences.py:167-171 | A header, then line i + 1 shows number i + 1 beside the display text of choices[i]. |
| ClientPreferences.CleanShownNumber | app/airq/lib/client_preferences.py:145-171 | Typing the number the prompt shows beside a choice selects that choice. Typing any other number selects nothing. |
| ClientPreferences.ToInt | app/airq/lib/client_preferences.py:210-213 | `int(value)` returns an integer unchanged, parses a string, and fails (the TypeError) on None. |
| ClientPreferences.ToIntStoredForms | app/airq/lib/client_preferences.py:210-213 | An integer stored as is, or as the string `str` writes, converts back to itself. |
| ClientPreferences.IntegerValidate | app/airq/lib/client_preferences.py:209-218 | Succeeds exactly when the value converts to an integer and each present bound holds (min <= v, v <= max), and then returns that integer. Otherwise it raises InvalidPrefValue. |
| ClientPreferences.IntegerClean | app/airq/lib/client_preferences.py:203-207 | Returns the integer exactly when the text parses and is in bounds, and None in exactly the cases `validate` raises. |
| ClientPreferences.IntegerCleanFormatted | app/airq/lib/client_preferences.py:200-218 | Cleaning `str(v)` gives v back when v is in bounds and None otherwise. |
| ClientPreferences.IntegerPromptFor | app/airq/lib/client_preferences.py:220-237 | The prompt chosen from the bounds invites exactly the integers `validate` accepts. |
| ClientPreferences.NewIntegerKindAsWritten | app/airq/lib/client_preferences.py:183-198 | As written, the constructor raises RuntimeError exactly when both bounds are truthy (present and non-zero). |
| ClientPreferences.AsWrittenRejectsOrderedBounds | app/airq/lib/client_preferences.py:194-198 | As written, bounds 1 and 10 are rejected. |
| ClientPreferences.NewIntegerKind | app/airq/lib/client_preferences.py:183-198 | The corrected constructor fails only with RuntimeError, and always succeeds unless both bounds are truthy. On success it keeps the default and both bounds. |
| ClientPreferences.NewIntegerKindChecksOrder | app/airq/lib/client_preferences.py:194-198 | The corrected constructor accepts truthy bounds exactly when min < max, and then some integer is valid. Bounds 1 and 10 are accepted. |
| ClientPreferences.NewIntegerPreference | app/airq/lib/client_preferences.py:183-198 | Builds a fresh descriptor with the given bounds and default exactly when the corrected bound check passes. Otherwise it raises RuntimeError. |
| ClientPreferences.Validate | app/airq/lib/client_preferences.py:121-123 | Either kind: invalid input raises InvalidPrefValue. A valid choice is a menu entry storing as the given value. A valid integer is the converted value, within bounds. |
| ClientPreferences.ValidateIdempotent | app/airq/lib/client_preferences.py:60-102 | Validating the stored form of a validated value gives the same value, so what `_set` stores reads back valid. |
| ClientPreferences.Clean | app/airq/lib/client_preferences.py:117-119 | Either kind's `clean`. What it yields is accepted by `validate` and stores unchanged. |
| ClientPreferences.FormatValue | app/airq/lib/client_preferences.py:148-201 | Both `format_value`s: ChoicesPreference's (lines 148-149) shows an enum member's display text, and IntegerPreference's (lines 200-201) shows a decimal that parses back to the integer. |
| ClientPreferences.StoredValue | app/airq/lib/client_preferences.py:73-76 | Under `preferences or {}`, a name counts as stored exactly when it is present and not null. |
| ClientPreferences.StoredValueAfterStore | app/airq/lib/client_preferences.py:73-102 | Reading back, as `__get__` does (lines 73-76), a name `_set` just stored (lines 98-102) gives the stored value, or nothing when it is JSON null. Every other name reads as before. |
| ClientPreferences.ClientPreference.constructor | app/airq/lib/client_preferences.py:35-43 | A descriptor keeps its display name, description and kind (default and parameters). |
| ClientPreferences.ClientPreference.Get | app/airq/lib/client_preferences.py:60-77 | An unregistered pref raises RuntimeError. Otherwise the resolution order is: an override wins; else a missing or null stored value gives the default; else the stored value is validated. Any value read from storage is valid for the pref. |
| ClientPreferences.ClientPreference.Set | app/airq/lib/client_preferences.py:98-102 | Invalid values raise and change nothing. Otherwise a null column becomes an empty map, and the validated value is stored under the pref's name with every other key unchanged. An unregistered pref raises after the map is created. |
| ClientPreferences.ClientPreference.SetFromUserInput | app/airq/lib/client_preferences.py:82-96 | Input that does not clean (after stripping) raises InvalidPrefValue and changes nothing. Otherwise the cleaned value is stored under the pref's name and returned. |
| ClientPreferences.GetAfterSet | app/airq/lib/client_preferences.py:98-102 | Reading back what `_set` stored gives the validated value, or the default when that value stores as JSON null. |
| ClientPreferences.FirstIndexOf | app/airq/lib/client_preferences.py:285-287 | The first position in registration order holding the pref itself, or none when no position holds it. |
| ClientPreferences.NameIn | app/airq/lib/client_preferences.py:283-288 | A pref has a name exactly when it is registered under some name, and the name found holds that pref. |
| ClientPreferences.NameInAppend | app/airq/lib/client_preferences.py:245-250 | Registering a new name keeps every registered pref's name and gives an unregistered pref the new name. |
| ClientPreferences.Overlay | app/airq/lib/client_preferences.py:270-271 | After the loop, the overrides hold exactly the old names plus the names of the given prefs. A name no pair touches keeps its old value. |
| ClientPreferences.OverlayStep | app/airq/lib/client_preferences.py:270-271 | One more pair is set over what the earlier pairs left. |
| ClientPreferences.OverlayLastWins | app/airq/lib/client_preferences.py:270-271 | A name ends up with the value of the last pair for it. |
| ClientPreferences.ClientPreferencesRegistry.constructor | app/airq/lib/client_preferences.py:241-242 | The registry starts with no prefs and no overrides. |
| ClientPreferences.ClientPreferencesRegistry.NameOf | app/airq/lib/client_preferences.py:113-115 | A pref's `name` exists exactly when it is registered, and the name found maps back to that pref. |
| ClientPreferences.ClientPreferencesRegistry.RegisterPref | app/airq/lib/client_preferences.py:245-250 | A name already taken raises RuntimeError and changes nothing. Otherwise the name goes last in the order. Names stay unique, existing names are kept, and a newly registered pref is found under its name. |
| ClientPreferences.ClientPreferencesRegistry.GetName | app/airq/lib/client_preferences.py:283-288 | Returns the first name in registration order that holds the pref, and raises RuntimeError for an unregistered pref. |
| ClientPreferences.ClientPreferencesRegistry.GetByName | app/airq/lib/client_preferences.py:291-293 | Returns the pref of a registered name. An unknown name raises KeyError. |
| ClientPreferences.ClientPreferencesRegistry.GetByIndex | app/airq/lib/client_preferences.py:296-306 | Returns the index-th registered pref, counting from 1 in registration order, and None outside 1..count. |
| ClientPreferences.ClientPreferencesRegistry.GetOverride | app/airq/lib/client_preferences.py:278-280 | Returns the override set for a name, if any. |
| ClientPreferences.OverrideLastWins | app/airq/lib/client_preferences.py:264-280 | After the overrides are laid over the old ones, `get_override` of a pref's name gives the value of the last pair for that pref. |
| ClientPreferences.ClientPreferencesRegistry.RegisterOverrides | app/airq/lib/client_preferences.py:264-271 | Each pair is set in turn under its pref's name. An unregistered pref raises RuntimeError and leaves the earlier pairs set, because the exception comes before the `try`. Names and prefs are unchanged. |
| ClientPreferences.ClientPreferencesRegistry.EndOverrides | app/airq/lib/client_preferences.py:272-275 | On leaving the context, every override is cleared, not only the ones it set, so `get_override` then finds none. |

## Left out

- `haversine_distance` and `Pm25.from_measurement` are not part of this model. They come from files not shown and compute in floating point, so they are parameters. Distances and concentrations are reals, and no property of either function (symmetry, monotonicity) is assumed.
- Database access is not modelled: SQL construction, the ORM, `db.session`, `flag_modified`. Queries are functions over in-memory row sequences, and commits are left out.
- In the join, the zip code and city tables are a single map from zip code id to (zip code string, city name). A zip code missing from it is left out of the join, as an inner join leaves it out.
- `GetQualityHandler.handle` is left out, along with `log_request`, `update_subscription` and the message texts. The messages and prompts are tags (`MessageLine`, `PromptLine`, `IntegerPrompt`), not translated strings.
- Request-scoped storage (Flask `g`, `has_app_context`) is left out. The overrides are one map held by the registry.
- `register_overrides` is a context manager. Its entry (the loop) is `RegisterOverrides` and its `finally` is `EndOverrides`. The yield between them is not modelled.
- The overrides take prefs as a sequence of pairs in the mapping's iteration order, since Dafny's maps have no order.
- ClientPreferences.ClientPreference.Get: an override set to None does not win in `__get__`, which falls through to the stored value. The overrides map holds no null values, so that case is not modelled.
- `__get__` with no instance, which returns the descriptor itself, is left out. So are `__set__` (a direct call of `_set`), `__set_name__` (a call of `register_pref`) and `__repr__`.
- `choices.py` is not part of this model. `from_value` is taken to be a lookup of the first enum member whose value equals the argument, and the enum's members are a sequence in definition order.
- `ParseInt` accepts only an optional sign followed by ASCII digits. Python's `int()` also accepts surrounding white space, underscores between digits and non-ASCII digits; those inputs are rejected here. Values of other Python types (floats, booleans) are left out: stored values are JSON integers, strings or null.
- `Strip` strips only ASCII white space. Python's `str.strip()` also strips non-ASCII white space.
- `set_from_user_input` leaves out the text of its error message (which includes the prompt) and the database commit.
- IntegerPreference's `get_prompt` returns a tag naming the bounds, not the translated sentence.
- Sorting.Sort: stability (ties keep query order) is how the sort is built, but it is not stated in a contract. The contracts state order and permutation only.
- Quality.NearbyZipcodes: proves the coverage property only for passes that finish below the cap. When the cap is hit mid-pass, only the size, radius and prefix bounds are stated.
- ClientPreferences.ClientPreferencesRegistry.RegisterOverrides: the registry is one object passed explicitly, rather than class-level state shared by the whole process.

## Findings

| source | as written | input that shows it | evidently intended | confidence | as-written member | corrected member |
|---|---|---|---|---|---|---|
| app/airq/lib/client_preferences.py:194-198 | When both bounds are truthy, IntegerPreference's constructor compares the maximum with itself. That comparison always holds, so every pair of non-zero bounds raises RuntimeError. | min_value=1, max_value=10 | Raise only when min_value >= max_value | not executed; high | ClientPreferences.NewIntegerKindAsWritten, ClientPreferences.AsWrittenRejectsOrderedBounds | ClientPreferences.NewIntegerKind, ClientPreferences.NewIntegerKindChecksOrder |
