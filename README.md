# WxBrief weather briefing: a Dafny model of its text rules

WxBrief shows pilots a weather briefing for a departure, an arrival and an optional
alternate airport. It has two front ends: a Qt desktop application (`V4.py`) and a Flask
helper module (`wx_api.py`). Both fetch raw METAR/TAF text and show it as HTML. Each
report line is coloured by its flight category: LIFR magenta, IFR red, MVFR blue, VFR
green, UNKNOWN black. What this project models is the pure text logic around the
network calls:

- **The flight-category rule** (module `Metar`), used by both front ends.
  - A line holding `SKC`, `CLR`, `SCT`, `FEW` or `P6SM` anywhere is VFR.
  - Otherwise the visibility comes from the leftmost match of `(\d{1,2})SM|P6SM`.
  - The ceiling is 100 times the lowest height among the `(OVC|BKN|VV)\d{3}` matches.
  - A chain of range checks then decides the category, and the category picks the
    colour of the line's `<span>`.
  - The block is the same code in `V4.py` and in `wx_api.py`, so one function models it
    for both. The two classifiers therefore agree on every line by construction.
- **The desktop variant's airport codes** (module `V4Codes`):
  - `format_airport_code`, which adds a `K` unless the code has four characters or a
    `PH`/`TJ` prefix;
  - the comma-separated `ids` list that is sent to the weather service;
  - the same prefix rule, repeated in `fetchDatis`;
  - the ICAO-to-FAA code mapping in `fetchAirportStatus`, over its static Hawaii
    (22 entries) and Puerto Rico (6 entries) tables.
- **The desktop variant's `colorizeWeather`** (module `V4Weather`). It is an imperative
  loop:
  - it drops blank lines;
  - it tracks the airport token, which is the first word of a line starting with `K`,
    `PH` or `TJ`;
  - it adds a bold header for the first airport, and a rule plus a header whenever the
    token changes;
  - it colours every kept line;
  - it appends a timestamp line and joins everything with `<br>`.

  The loop is specified by `Pieces`, a list of rules, headers and lines whose rendering
  is the list the loop builds.
- **The Flask helper's variants** (module `WxApi`):
  - an unconditional `K` prefix for the weather `ids` and for the DATIS URL;
  - the airport-status URL, which passes the code through with no FAA mapping;
  - `colorize_weather`, which colours every line, blank ones included, with no grouping.
- **Python string operations** (module `Text`): `split(ch)`, `join`, `strip()`
  emptiness, `split()[0]`, `startswith`, `in` and `upper()`, over `seq<char>`.

Regular expressions are modelled as scanners over offsets:

- `VisAt` tries the visibility pattern at one offset. The two-digit form comes first,
  because `\d{1,2}` is greedy.
- `FirstVisAt` is `re.search`.
- `LayerAt` tries the ceiling pattern at one offset.
- `Layers` is `re.findall`, which resumes after each match.

Visibility is a `real`, so that the `6.1` sentinel is kept as written. The model proves
that the sentinel is only produced on lines that the shortcut has already classified.

Two behaviours of the code are worth stating plainly:

- `format_airport_code` does not map three-letter Hawaii or Puerto Rico codes to their
  ICAO form: `HNL` becomes `KHNL`, and `PHX` stays `PHX` because of the `PH` prefix
  test (V4.py:192). This is stated by `V4Codes.RegionalThreeLetterCodesGetK` and
  `V4Codes.FormatAirportCode`.
- The grouping token of `colorizeWeather` is the first whitespace-separated word of any
  line starting with `K`, `PH` or `TJ`, whatever its length (V4.py:233-234).

An empty departure or arrival code puts the text `None` into the desktop variant's
`ids`, because `f"{None}"` renders that way. The model keeps this behaviour.

## Model

| member | source | states |
|---|---|---|
| Metar.HasShortcutToken | V4.py:250 | Defines the shortcut test: `SKC`, `CLR`, `SCT`, `FEW` or `P6SM` occurs somewhere in the line. Its effect is stated by `Metar.ShortcutWins` and `Metar.Classify`. |
| Metar.Classify | V4.py:246-276 | A line with a shortcut token is VFR. The result is UNKNOWN exactly when there is no shortcut and either no ceiling match or no visibility match. When both values are present, the result is the worse of the ceiling band and the visibility band. |
| Metar.ShortcutWins | V4.py:250-251 | Any occurrence of `SKC`, `CLR`, `SCT`, `FEW` or `P6SM` makes the line VFR, whatever ceiling or visibility tokens it also holds. |
| Metar.VisAt | V4.py:253 | The `P6SM` alternative is reported only where `P6SM` occurs. |
| Metar.FirstVisAt | V4.py:253 | `re.search`: the offset found is a match, nothing matches before it, and no result means no match from the start offset on. |
| Metar.Visibility | V4.py:253-258 | The visibility is absent exactly when the pattern matches nowhere in the line. |
| Metar.LeftmostMilesIsVisibility | V4.py:255-258 | Without `P6SM` in the line, the leftmost match is a `\d{1,2}SM` of 0 to 99 miles, and the visibility is that number. |
| Metar.WholeMilesOutsideShortcut | V4.py:253-258 | Outside the shortcut, a present visibility is a whole number from 0 to 99. The 6.1 sentinel is never reached there. |
| Metar.LayerAt | V4.py:260 | A match of OVC, BKN or VV followed by three digits at an offset gives a height of at most 999. |
| Metar.Layers | V4.py:260 | Every height that `findall` reports is at most 999. |
| Metar.LayersDoNotOverlap | V4.py:260 | No match of the ceiling pattern starts inside another match, so resuming after a match skips nothing. |
| Metar.LayersAreAllMatches | V4.py:260 | A height is in the `findall` result exactly when some match at or after the start offset has that height. |
| Metar.Min | V4.py:262 | `min` of a non-empty list is an element of the list and no larger than any element. |
| Metar.Ceiling | V4.py:260-262 | The ceiling is absent exactly when there is no layer match. Otherwise it is a multiple of 100 in 0..99900, at most 100 times every matched height, and attained by some match. |
| Metar.NoLayersNoMatch | V4.py:261 | An empty `findall` result means no match anywhere in the line. |
| Metar.LowestLayer | V4.py:262 | The minimum reported height is attained by a match and is no larger than any matched height. |
| Metar.Worse | V4.py:264-274 | The worse of two known categories is one of them, and it is at least as severe as both. |
| Metar.ThresholdCategory | V4.py:264-274 | The range-check chain never reaches its UNKNOWN arm. It equals the worse of the ceiling band (<500, <1000, ≤3000, else) and the visibility band (<1, <3, ≤5, else). |
| Metar.ThresholdMonotone | V4.py:264-274 | Lowering the ceiling or the visibility never gives a better category. |
| Metar.LowerCeilingNeverBetter | V4.py:260-274 | Of two lines with the same visibility, the one with the lower ceiling is at least as severe. |
| Metar.EmptyLineUnknown | wx_api.py:44-63 | An empty line is UNKNOWN and is coloured black. |
| Metar.ColorOf | wx_api.py:58-65 | The colour map is total: every category has a non-empty colour. |
| Metar.ColorOfInjective | wx_api.py:58-64 | No two categories share a colour. |
| Metar.Span | V4.py:287 | Defines the coloured span of a line: the line's text, unchanged, inside a `<span>` whose colour is `ColorOf(Classify(line))`. Both front ends use it (wx_api.py:65). |
| Metar.SpanPrefix | V4.py:287 | Every span starts with `<sp`, so it cannot be mistaken for a header or a rule. |
| V4Codes.FormatAirportCode | V4.py:188-194 | None exactly for an empty code. Otherwise the result ends with the code and is at most one character longer. It equals the code exactly when the code has length 4 or a PH/TJ prefix, and in every other case it is `K` + code. |
| V4Codes.ThreeLetterCodeGetsK | V4.py:192-194 | A three-character code without a PH/TJ prefix becomes the four-character `K` + code. |
| V4Codes.FormatIdempotentOnIcaoShape | V4.py:188-194 | Formatting a second time changes nothing exactly when the input had length 3 or was kept as it was. |
| V4Codes.WeatherIds | V4.py:196-205 | Defines the `ids` string of `fetchWeather`. What it holds is stated by `V4Codes.WeatherIdsFields`. |
| V4Codes.WeatherIdsFields | V4.py:196-205 | For codes without commas, splitting `ids` on commas gives the formatted departure (or `None`), the formatted arrival (or `None`), and then the formatted alternate exactly when one was entered. |
| V4Codes.NoCommaInFormatted | V4.py:188-194 | Formatting adds no comma. |
| V4Codes.DatisUrl | V4.py:298-308 | `fetchDatis` fails exactly for an empty code, with its error message. Otherwise it gives the DATIS URL of exactly the code `format_airport_code` produces, although `fetchDatis` repeats the prefix rule instead of calling that function. |
| V4Codes.TablesWellFormed | V4.py:333-367 | The Hawaii keys are upper-case four-letter PH codes, the Puerto Rico keys upper-case four-letter TJ codes, and every value has three characters. |
| V4Codes.HawaiiValuesNotRegional | V4.py:334-357 | No Hawaii table value starts with PH or TJ. |
| V4Codes.PuertoRicoValuesNotRegional | V4.py:360-367 | No Puerto Rico table value starts with PH or TJ. |
| V4Codes.FaaCode | V4.py:369-381 | A four-character code gives a three-character result: its Hawaii value, else its Puerto Rico value (both looked up upper-cased), else the code without its first character. Any other length is returned unchanged. |
| V4Codes.FaaCodeIgnoresCase | V4.py:371-374 | A table key and its lower-case form both map to the key's table value. |
| V4Codes.KWordsAreNotTableKeys | V4.py:333-367 | No table key starts with K. |
| V4Codes.KCodesAreNotTableKeys | V4.py:375-376 | A four-character code starting with K is in neither table, so it loses its K. |
| V4Codes.FormatThenFaaCodeRoundTrip | V4.py:188-381 | For every three-character code, mapping the formatted code to an FAA code gives the code back. |
| V4Codes.FormatFaaFormatIsStable | V4.py:188-381 | Formatting, mapping to an FAA code and formatting again gives the first formatting, for every three-character code. |
| V4Codes.RegionalThreeLetterCodesGetK | V4.py:188-194 | A three-letter Hawaii or Puerto Rico code is formatted as `K` + code, which is not its ICAO key. |
| V4Codes.StatusUrl | V4.py:330-383 | The error text "Error: Airport code is required" exactly for an empty code. Otherwise the status URL is the service prefix followed by the FAA code. |
| WxApi.WeatherIds | wx_api.py:8-12 | Defines the `ids` string of `fetch_weather`. What it holds is stated by `WxApi.WeatherIdsFields`. |
| WxApi.WeatherIdsFields | wx_api.py:8-12 | Splitting `ids` on commas gives exactly `K` + departure and `K` + arrival. |
| WxApi.DatisUrl | wx_api.py:72 | The DATIS URL is the service prefix, then `K`, then the code, with no special-region handling. |
| WxApi.AgreesWithV4OnThreeLetterCodes | wx_api.py:8-72 | For three-letter codes outside PH/TJ, both front ends build the same `ids` and the same DATIS URL. |
| WxApi.DiffersFromV4OnFourLetterCodes | wx_api.py:72 | A four-letter code is kept by the desktop variant but gets a second prefix letter here. |
| WxApi.StatusUrl | wx_api.py:84 | The status URL is the service prefix followed by the code as given, with no FAA mapping. |
| WxApi.StatusDiffersFromV4OnKCodes | wx_api.py:84 | A four-letter `K` code loses its `K` in the desktop variant's status URL (V4.py:375-376) but is sent unchanged here. |
| WxApi.ColorizeWeather | wx_api.py:25-68 | The output is the coloured span of every line of `data.split('\n')`, blank lines included, in order, joined with `<br>`. |
| WxApi.SpanCount | wx_api.py:26-68 | There is one span per piece of the split: one more than the number of newlines. |
| V4Weather.AirportCode | V4.py:234 | The leading token of an airport line is never empty. |
| V4Weather.Step | V4.py:229-244 | One line adds nothing exactly when it is blank. Otherwise it adds at most three pieces, and the last is the line itself. |
| V4Weather.StepSummary | V4.py:229-244 | A non-blank line contributes its own text once. An airport line adds a header exactly when there is no current airport or its token differs from it, and a rule exactly when it differs from a current airport. Any other line adds neither. |
| V4Weather.NextAirport | V4.py:233-244 | Every non-blank airport line sets the current airport to its token, and every other line leaves it unchanged. Once set, it stays set. |
| V4Weather.Pieces | V4.py:227-288 | Defines the pieces of the remaining lines: each line's `Step`, left to right, with the current airport carried along by `NextAirport`. |
| V4Weather.PiecesSize | V4.py:227-288 | There are no pieces exactly when every line is blank, and there are at most three per line. |
| V4Weather.Render | V4.py:239-288 | The first three characters of the appended string tell a rule, a header and a coloured line apart. |
| V4Weather.Footer | V4.py:290-293 | Defines the timestamp line that closes the output. The clock reading is the `retrievedAt` parameter. |
| V4Weather.ColorizeWeather | V4.py:220-295 | The list the loop builds is the rendering of `Pieces` from no current airport, followed by the timestamp line, all joined with `<br>`. |
| V4Weather.OneSpanPerNonBlankLine | V4.py:227-288 | The lines that receive a span are exactly the non-blank input lines, in input order. |
| V4Weather.NonBlank | V4.py:229-230 | The kept lines are no more than the input lines, and none of them is blank. |
| V4Weather.Dedup | V4.py:238-244 | Collapsing repeated neighbours keeps the first element and leaves no two equal neighbours. |
| V4Weather.DedupOfDistinctNeighbours | V4.py:238-244 | A sequence without equal neighbours is unchanged by the collapse. |
| V4Weather.HeadersAreAirportChanges | V4.py:233-244 | The headers are the airport tokens of the non-blank airport lines with repeated neighbours collapsed. So there is a header for the first airport, and one exactly where the token differs from the current one. |
| V4Weather.RuleCountMatchesHeaders | V4.py:238-242 | Starting from no current airport, there is one rule fewer than headers, and none when there are no headers. |
| V4Weather.PiecesRulesPlaced | V4.py:236-244 | From any current airport, a header has a rule directly before it exactly when an airport was already current or an earlier header exists. |
| V4Weather.RuleBeforeEveryLaterHeader | V4.py:238-242 | Starting from no current airport, a header has a rule directly before it exactly when an earlier header exists. So the first airport's header has none, and every later header has one. |
| V4Weather.PiecesAreGrouped | V4.py:233-288 | Every rule is directly followed by a header, and every header directly by the airport line whose leading token it shows. |
| Text.IsBlank | V4.py:229 | Defines `not line.strip()`: every character is Python whitespace. It is used by `V4Weather.NonBlank` and `V4Weather.Step`. |
| Text.LeadingToken | V4.py:234 | `split()[0]`: a prefix of the line with no whitespace, ending at whitespace or at the end of the line. |
| Text.Split | V4.py:221 | `split('\n')` gives one more piece than there are separators, and no piece contains the separator. |
| Text.Join | V4.py:295 | Defines `sep.join(parts)`. Its inverse is stated by `Text.SplitJoin` and `Text.JoinSplit`. |
| Text.JoinSplit | V4.py:221-295 | Joining the pieces of a split with the same separator gives the string back. |
| Text.SplitJoin | V4.py:200-205 | Splitting a join of separator-free pieces gives the pieces back. |
| Text.Upper | V4.py:371 | `upper()` keeps the length and maps each character on its own. |

## Left out

- The Qt window, timers, auto-refresh and close handling are not modelled; they are user interface.
- Click-sound playback is not modelled; it is a daemon thread and OS calls.
- All `requests.get` calls, status-code branches and exception handlers are not modelled; they are network I/O. The model stops at the URL or the `ids` string each request would use.
- `@ttl_cache` is not modelled; it is caching that depends on the wall clock.
- The clock is a parameter: `V4Weather.ColorizeWeather` takes the formatted UTC time as `retrievedAt`.
- The JSON-to-text airport-status formatters (V4.py:394-443, wx_api.py:89-115) are not modelled; they depend on the shapes of service replies.
- `app.py` is not part of this model; it is Flask routing and templates.
- Metar.VisAt: Python's `\d` also matches non-ASCII decimal digits. The model accepts only `0`–`9`, so a line whose visibility or layer height uses other digit characters is not covered.
- Metar.LayerAt: the same ASCII-digit restriction applies to the three digits of a layer height.
- Text.Upper: `str.upper()` is modelled for ASCII letters and for the two non-ASCII letters whose upper-case form is an ASCII letter (dotless i, long s). Every other character is left unchanged. This is enough for a comparison with the upper-case ASCII table keys, but it is not the full Unicode mapping.
- Floating point is not modelled: visibility is an exact `real`, and this matters only for the `6.1` sentinel and whole numbers.
- V4Codes.WeatherIds: the `airport3=None` default is modelled as the empty string, which Python treats as false in the same way.

