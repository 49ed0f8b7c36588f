# arn-maps core, modelled in Dafny

arn-maps is a browser map page (`script.js`). It loads a `KEY=VALUE`
configuration file into a global `CONFIG` object. It builds the XML request
body for the Trafikverket traffic-situation service from the configured API
key. It also keeps a Leaflet map view and a "you are here" marker that follows
the device's position fixes. This project models those three parts and proves
what they do.

- `wrappers.dfy` (`Wrappers`): an `Option` for JavaScript values that may be
  `undefined`, and map lookup.
- `js_strings.dfy` (`JsStrings`): the JavaScript string operations the loader
  uses.
  - `String.prototype.trim`, over the ECMAScript white-space and
    line-terminator set.
  - `split` on one character.
  - `split(/\r?\n/)`, modelled as a split on LF that then drops one CR from
    the end of every piece except the last.
  - Each comes with its inverse and round-trip lemmas.
- `config.dfy` (`Config`): the `loadConfig` loop.
  - `ParseLine` says what one line does: blank, comment, assignment, or a
    throw.
  - `Apply` is the reference fold over those effects.
  - The `LoadConfig` method is the `forEach` loop over a mutable map. It is
    proved equal to that fold, and the fold's properties are proved as
    lemmas.
- `config_examples.dfy` (`ConfigExamples`): concrete lines and a concrete
  file, derived from the general lemmas.
- `incidents.dfy` (`Incidents`): the request-body template of
  `fetchIncidents` and the function that reads the key back out of a body.
- `map_view.dfy` (`MapView`): a `MapState` class for the `map` view and the
  `userMarker` global, changed by the geolocation callback and by
  `toggleRecenter`.

The model reproduces the loader's quirks rather than fixing them:

- `split('=')` cuts at every `=`, so only the text between the first and the
  second `=` becomes the value.
- A line that is neither blank nor a comment and has no `=` leaves `value`
  undefined. `value.trim()` then throws, and the loop ends with the
  assignments made so far still in `CONFIG`.
- An empty key is stored like any other key.
- A later line for the same key overwrites an earlier one.
- A missing API key is rendered as the text `undefined`.

## Model

| member | source | states |
|---|---|---|
| JsStrings.Trim | script.js:15 | `String.prototype.trim`: drops leading then trailing ECMAScript whitespace; characterised by TrimSpec and TrimOfPadded |
| JsStrings.TrimSpec | script.js:15 | `trim` keeps one contiguous slice of the line, with only whitespace around it, and the slice neither starts nor ends with whitespace |
| JsStrings.TrimOfPadded | script.js:15 | the converse: trimming an unpadded text surrounded by any whitespace gives that text back |
| JsStrings.TrimIdempotent | script.js:15 | `trim` is idempotent: trimming a trimmed text changes nothing |
| JsStrings.SplitOn | script.js:17 | `split` on one character: at least one piece; characterised by SplitOnPieces, JoinSplitOn, SplitOnJoin and SplitOnFirstTwo |
| JsStrings.SplitOnPieces | script.js:17 | no piece of `split('=')` contains `=` |
| JsStrings.JoinSplitOn | script.js:17 | joining the pieces of `split('=')` with `=` gives the text back |
| JsStrings.SplitOnJoin | script.js:17 | splitting on `=` gives back any `=`-free pieces joined with `=` |
| JsStrings.SplitOnFirstTwo | script.js:17 | the destructured `key` is the text before the first `=`, and `value` is the text between the first and the second `=` |
| JsStrings.SplitLines | script.js:12 | `split(/\r?\n/)`: at least one line; characterised by SplitLinesNoLF, SplitLinesJoinLines and JoinLinesSplitLines |
| JsStrings.SplitLinesNoLF | script.js:12 | no line produced by `split(/\r?\n/)` contains LF |
| JsStrings.SplitLinesJoinLines | script.js:12 | LF-free lines joined by any mix of LF and CR LF split back into the same lines (unless a line before a bare LF ends in CR) |
| JsStrings.JoinLinesSplitLines | script.js:12 | the lines and the kind of each line break give the original text back |
| Config.ParseLine | script.js:15-18 | what one line does to `CONFIG`: skipped as blank or comment, an assignment, or a throw; characterised by ParseLineCases and ParseLineAssign |
| Config.ParseLineCases | script.js:15-18 | a line is blank exactly when it trims to empty, a comment exactly when the trimmed text starts with `#` (so indented comments count), throws exactly when it is neither and has no `=`, and stores otherwise; the stored key and value are trimmed and hold no `=` |
| Config.ParseLineAssign | script.js:17-18 | an accepted line stores the trimmed text before its first `=` under the trimmed text between its first and second `=`; what follows a second `=` is lost |
| Config.Step | script.js:17-18 | one iteration of the loop body: it throws exactly on the effect of a line without `=`, a skipped or throwing line leaves the store as it was, and an assignment stores its value under its key and leaves every other key as it was; LoadConfig's loop takes each step |
| Config.Apply | script.js:14-20 | the `forEach` loop as a fold over the line effects, stopping at the first throw; characterised by ApplyAppend, ThrowsIff, ThrowKeepsEarlierEntries, KeepsPriorEntries, KeysComeFromLines, AddedKeysBound and LastWriteWins |
| Config.ApplyAppend | script.js:14-20 | running the loop over two runs of lines is running it over the first, then, unless it threw, over the second |
| Config.SkippedLineInert | script.js:16 | a blank or comment line never changes the outcome, wherever it stands |
| Config.ThrowsIff | script.js:17-18 | the loop throws exactly when some line is neither blank, nor a comment, nor contains `=` |
| Config.ThrowKeepsEarlierEntries | script.js:14-20 | at the first line without `=` the loop throws, and `CONFIG` keeps exactly what the earlier lines stored |
| Config.KeepsPriorEntries | script.js:14-20 | entries present before loading are never removed, and a key no line assigns keeps its old value |
| Config.KeysComeFromLines | script.js:18 | every key afterwards was there before or is the key of some assigning line |
| Config.AddedKeysBound | script.js:14-20 | the loop adds at most one key per assigning line |
| Config.LastWriteWins | script.js:18 | if the loop reaches the last line assigning a key, the key ends up with that line's value |
| Config.ThrowEndsLoop | script.js:14-20 | after a throw the remaining lines are never looked at |
| Config.LoadConfig | script.js:12-20 | the `forEach` loop over a mutable map returns the same store and throw status as the fold `Apply` over the effects of the split lines |
| ConfigExamples.PlainAssignment | script.js:17-18 | `A=1` stores `A` ↦ `1` |
| ConfigExamples.SpacedAssignment | script.js:15-18 | `B = 2 ` stores `B` ↦ `2` |
| ConfigExamples.SecondEqualsDropsRest | script.js:17-18 | `a = b = c` stores `a` ↦ `b` |
| ConfigExamples.EmptyKey | script.js:17-18 | `=v` stores `v` under the empty key |
| ConfigExamples.IndentedComment | script.js:15-16 | `  # x = y` is a comment |
| ConfigExamples.MissingEqualsThrows | script.js:17-18 | `oops` throws |
| ConfigExamples.SampleLines | script.js:12 | the sample file has the four lines `A=1`, `# comment`, the empty line and `B = 2 ` |
| ConfigExamples.SampleConfig | script.js:12-20 | the sample file loaded into an empty `CONFIG` gives `{A: "1", B: "2"}` |
| Incidents.Rendered | script.js:68 | how the template literal renders `CONFIG.TRAFIKVERKET_API_KEY`: the value, or `undefined` when missing; characterised by MissingKeyRendersUndefined |
| Incidents.RequestBodyFor | script.js:66-70 | the body built from `CONFIG` as it stands; characterised by MissingKeyRendersUndefined and ConfiguredKeyInBody |
| Incidents.RequestBody | script.js:66-70 | the body contains `authenticationkey="K"` with the key K inserted verbatim (or `undefined`), and `objecttype="Situation" schemaversion="1.4"` |
| Incidents.KeyOfRequestBody | script.js:68 | the key read back out of a body is exactly the key put in |
| Incidents.RequestBodyInjective | script.js:68 | different keys give different bodies |
| Incidents.MissingKeyRendersUndefined | script.js:68 | without a configured key, the body is the one a key spelled `undefined` would give |
| Incidents.ConfiguredKeyInBody | script.js:68 | the value stored by the last `TRAFIKVERKET_API_KEY` line reached by the loop is the key the body carries |
| MapView.Marker.constructor | script.js:57 | a marker carries its position and the popup text |
| MapView.MapState.constructor | script.js:29-33 | the map starts at central Stockholm, zoom 6, with no user marker |
| MapView.MapState.GetUserLocation | script.js:45-62 | a fix moves the view there at zoom 14 and replaces any old marker with a new one at the fix with the popup `Du är här`, so exactly one marker is on the map; without the API, or on an error, nothing changes |
| MapView.MapState.ToggleRecenter | script.js:92-95 | with no marker nothing changes; otherwise the view moves to the marker's position at zoom 14 and the markers stay as they are |
| MapView.LocateTwice | script.js:52-57 | after two fixes there is one marker, at the second fix, and the view is there at zoom 14 |
| MapView.RecenterWithoutFix | script.js:92-93 | recentring before any fix leaves the initial view and no marker |
| MapView.RecenterAfterFailedRetry | script.js:92-94 | a later failed lookup keeps the earlier marker, and recentring returns to it |

## Left out

- The network. `fetch('config.cfg')` (script.js:10-11) is replaced by the text parameter of `LoadConfig`. The POST of the request body and the logging of the response (script.js:72-79) are left out, and so is `searchLocation` with `encodeURIComponent` (script.js:85-89).
- Leaflet. The map object is reduced to its view and its user markers. The tile layer (script.js:35) and the zoom control are left out, and `addTo`, `removeLayer` and `bindPopup` become set updates and a field.
- The geolocation API itself. Which callback runs, and when, is the `Geolocation` parameter of `GetUserLocation`. The accuracy option is left out.
- Asynchrony. The ordering of `initMap` (script.js:26-42), the fire-and-forget calls, and the rejected promise when `loadConfig` throws are left out. `LoadConfig` reports the throw as `Threw` with the store at that point.
- The DOM toggles `setTheme`, `toggleMobileMode` and `toggleCompressedMode` (script.js:97-107): each is a single attribute or class write.
- The placeholders `getRoutes` and `avoidCities` (script.js:110-117): they only log.
- The console logging (script.js:22, 47, 59, 79).
- Coordinates are opaque `real` pairs. Nothing computes on them, so floating point plays no part.
- JavaScript object quirks of `CONFIG`, such as a `__proto__` key. `CONFIG` is a plain map from strings to strings.
- Strings are sequences of characters. UTF-16 surrogate pairs are not distinguished from code points. Neither affects `trim` or `split` on ASCII separators.
- Incidents.RequestBody: it does not state that the body is well-formed XML. A key containing `"` or `<` is pasted in unescaped and can break the envelope. The model keeps this behaviour but proves nothing about XML structure.
