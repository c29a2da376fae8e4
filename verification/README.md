# Display resolution tray: a Dafny model of its core

The tray app lists the Mac's displays with the `displayplacer` tool, lets the user pick a resolution
per display, and remembers preferences. This project models the pure logic behind that:

- **Listing parser** (`parser.dfy`, `lines.dfy`). `parseDisplayPlacerOutput` scans the lines of
  `displayplacer list` once. It opens a display record on every `Persistent screen id:` line. It keeps
  the last `Resolution:` and `Type:` values. After a `Resolutions for rotation` line it collects the
  `WxH` tokens without repeats. The loop is written as a method and proved equal to a block-wise
  reading of the listing, `ReferenceParse`.
- **Configuration re-read and command** (`config.dfy`). `extractDisplayPlacerConfig` reads the lines
  from the first line that mentions the display up to the next rotation marker. In that window it
  overwrites a defaulted configuration. The loop, including its `break`, is proved equal to "the
  capture of the last matching line of the window, else the default". `buildDisplayPlacerCommand`
  is a string template. It is proved to have the `displayplacer "id:… res:WxH scaling:… origin:…
  degree:…"` layout, and it is proved to parse back into its settings.
- **Usage counts** (`usage.dfy`, `jsobject.dfy`). `trackResolutionUsage` increments a count in a
  nested object. `getMostUsedResolutions` sorts one display's counts in descending order and takes
  the first `limit`. JavaScript objects are modelled as key/value lists in property-creation order,
  because the stable sort keeps that order among equal counts.
- **Preferences** (`prefs.dfy`). These are the store's defaults, saving and restoring a preferred
  resolution, tracking only successful changes, and the launch-at-login toggle.
- **Tray submenu** (`menu.dfy`). This covers the caption, the "Most Used" and "Available" radio
  sections, the `checked` rule, and the save and restore items of one display's submenu.

Regular-expression matching is abstracted. A `Matcher` parameter maps each line's text to the first
match of every pattern the scans use. `WellFormedCaptures` states what each pattern guarantees of
what it captures: digits, `on`/`off` in any case, an id of hex digits and dashes, and so on.
`split('\n')`, `includes`, `trim` and lower-casing are modelled on the text itself.

`display-helper.js` puts every value into the command as it is, with no validation or escaping,
and `BuildDisplayPlacerCommand` does the same. `CommandQuoting` and `ParseBuiltCommand` state under
which conditions on the values the command still has its intended shape.

## Model

| member | source | states |
|---|---|---|
| PlacerLines.LinesCoverOutput | display-helper.js:29 | the scanned lines, joined with newlines, are exactly the listing (nothing dropped or added by the split) |
| Text.SplitJoin | display-helper.js:29 | `split` undoes `join` when no piece holds the separator |
| Text.Trim | display-helper.js:60 | the trimmed label is empty exactly when the text is all white space, and otherwise starts and ends with non-space |
| Text.TrimRemovesBlankEnds | display-helper.js:60 | trimming only removes a white-space prefix and a white-space suffix |
| Text.ContainsAt | display-helper.js:134 | `includes` holds exactly when the searched text occurs at some position of the line |
| PlacerParser.ParseDisplayPlacerOutput | display-helper.js:27-87 | the scan returns the block-wise reading: one record per persistent-id line, in input order, the last record included, each with a repeat-free resolution list |
| PlacerParser.ScanLines | display-helper.js:34-84 | the loop with its accumulator, section flag and final push computes the block-wise reading |
| PlacerParser.ScanDetailLine | display-helper.js:51-78 | a non-id line updates the open record exactly as appending it to the open block does, and leaves "no record" alone |
| PlacerParser.ScanStateOpen | display-helper.js:37-48 | an id line pushes the open record and opens `(id, "Unknown", null, [])` with the section flag cleared |
| PlacerParser.BlocksFollowScreenIds | display-helper.js:36-49 | there is one block per persistent-id line, carrying that line's id, in input order |
| PlacerParser.ReferenceParseFollowsScreenIds | display-helper.js:36-49 | the records' ids are the persistent-id lines' ids, in order, one each |
| PlacerParser.ReferenceParseNoDups | display-helper.js:73-76 | no record lists a resolution twice |
| PlacerParser.DedupFirstSeenOrder | display-helper.js:73-76 | the kept resolutions are in the order of their first occurrence |
| PlacerParser.ResolutionsComeAfterMarker | display-helper.js:64-78 | a resolution is listed iff some non-blank, non-marker line after a rotation marker in the same block carries that token |
| PlacerParser.ListedTokensComeAfterMarker | display-helper.js:64-78 | every collected token comes from a line after a marker |
| PlacerParser.MarkedTokensAreListed | display-helper.js:64-78 | every token on a listing line after a marker is collected |
| PlacerParser.BlocksIgnorePreamble | display-helper.js:53-70 | lines before the first persistent-id line create no block |
| PlacerParser.ReferenceParseIgnoresPreamble | display-helper.js:53-70 | lines before the first persistent-id line do not change the result |
| PlacerParser.BlockAfterIdLine | display-helper.js:36-84 | a persistent-id line followed by lines that are not persistent-id lines adds one block with that id whose body is exactly those lines, and leaves the blocks before it unchanged |
| PlacerParser.ReferenceParseAfterIdLine | display-helper.js:36-84 | the record read for such a block is the last record, and the records before it are those of the lines before the persistent-id line |
| PlacerParser.NameIsLastTypeLine | display-helper.js:58-61 | the name is the trimmed label of the block's last `Type:` line |
| PlacerParser.NameWithoutTypeLine | display-helper.js:41-61 | without a `Type:` line the name stays `Unknown` |
| PlacerParser.CurrentIsLastResolutionLine | display-helper.js:52-55 | the current resolution is `WxH` of the block's last `Resolution:` line |
| PlacerParser.CurrentWithoutResolutionLine | display-helper.js:41-55 | without a `Resolution:` line the current resolution stays null |
| PlacerParser.ReferenceParseShape | display-helper.js:36-75 | ids are hex-and-dash strings and every resolution has the `digits x digits` shape |
| PlacerConfig.ExtractDisplayPlacerConfig | display-helper.js:120-168 | the result is the configuration of the window that starts at the first mention of the id and ends at the next marker |
| PlacerConfig.ScanForConfig | display-helper.js:131-165 | the loop with its flag and `break` reads exactly the window |
| PlacerConfig.ReadLine | display-helper.js:134-163 | going on after a line keeps the loop state true of the lines read so far; stopping on a marker yields the configuration of the whole window |
| PlacerConfig.ReadTargetLine | display-helper.js:139-158 | a line of the target display turns the configuration of the window lines read so far into that of those lines and it |
| PlacerConfig.ConfigOfExtend | display-helper.js:138-158 | reading one more line applies exactly that line's updates to the last-match configuration |
| PlacerConfig.ConfigFromLastLines | display-helper.js:139-158 | the id is the requested one, width and height are set together from the same line, and each field is the capture of its last matching line (scaling lower-cased, origin re-parenthesised) |
| PlacerConfig.ConfigDefaults | display-helper.js:122-129 | width is null iff no `Resolution:` line was read, and scaling, origin and degree are `on`, `(0,0)` and `0` when no line matched them |
| PlacerConfig.ConfigShape | display-helper.js:139-158 | the fields have their patterns' shapes: digits, `on`/`off`, `(…)` without an inner `)`, digits |
| PlacerConfig.WindowShape | display-helper.js:131-164 | the window is empty iff the id is never mentioned, starts at the first mention, has no marker before its last line, and runs to the end when it does not end on a marker |
| PlacerConfig.FirstMentionAfterPreamble | display-helper.js:133-136 | lines without the id in front move the first mention by their number |
| PlacerConfig.WindowIgnoresPreamble | display-helper.js:133-136 | lines before the first mention of the id do not change the window |
| PlacerConfig.WindowIgnoresRest | display-helper.js:160-163 | once the window has ended at a marker, later lines do not matter |
| PlacerConfig.ConfigWithoutMention | display-helper.js:122-136 | a display never mentioned gets the default configuration |
| PlacerConfig.CommandLayout | display-helper.js:178 | the command is `displayplacer "` + the five `key:value` settings joined by single spaces + `"` |
| PlacerConfig.CommandQuoting | display-helper.js:178 | when no value holds `"`, the only double quotes are the two around the argument |
| PlacerConfig.ParseSettingsOf | display-helper.js:178 | the five settings read back as the id, width, height, scaling, origin and degree |
| PlacerConfig.ParseBuiltCommand | display-helper.js:178 | reading the command back yields every setting unchanged, when no value holds a space and width and height hold no `x` |
| JsObjects.GetAt | main.js:315 | with distinct keys, reading a key yields the value stored under it |
| JsObjects.SetKeys | main.js:293-300 | assignment keeps keys distinct, and appends the key when it is new |
| JsObjects.SetGet | main.js:293-300 | after assignment the key reads back the new value and every other key reads as before |
| ResolutionUsage.TrackDisplays | main.js:289-302 | only the tracked display's counts object changes |
| ResolutionUsage.TrackCounts | main.js:292-300 | the count of (id, resolution) goes up by exactly one from 0 when absent, and every other count is unchanged |
| ResolutionUsage.TrackWellFormed | main.js:287-302 | the table keeps distinct keys at both levels |
| ResolutionUsage.TrackRecords | main.js:292-300 | the tracked resolution is recorded afterwards, and nothing recorded is lost |
| ResolutionUsage.TrackKeyOrder | main.js:292-300 | a first use appends the resolution to the display's key order, a repeat keeps the order, and other displays are untouched |
| ResolutionUsage.SortByCount | main.js:318-319 | the sorted list is a permutation of the entries |
| ResolutionUsage.SortSorted | main.js:318-319 | the sorted list has non-increasing counts |
| ResolutionUsage.SortStable | main.js:318-319 | entries with equal counts keep their object order |
| ResolutionUsage.StableOrderUnique | main.js:318-319 | two count-sorted orderings that keep every count's entries in the same order are equal |
| ResolutionUsage.SortIsStableSort | main.js:318-319 | any stable descending sort of the entries equals the modelled one |
| ResolutionUsage.SortUniqueKeys | main.js:318-319 | sorting keeps keys distinct |
| ResolutionUsage.MostUsedProperties | main.js:312-323 | the list holds min(limit, number recorded) resolutions, none for a display without usage, none twice, each recorded, with non-increasing counts |
| ResolutionUsage.MostUsedIsTop | main.js:318-321 | no recorded resolution left off the list was used more often than one on it |
| ResolutionUsage.LeftOutCountsNoMore | main.js:318-321 | one left-out resolution counts no more than one listed resolution |
| Preferences.DefaultsAreEmpty | main.js:14-21 | a fresh store has nothing to restore, no most-used resolutions and launch-at-login off |
| Preferences.SavePreferredResolution | main.js:331-335 | a saved resolution reads back, and other displays' entries and the rest of the store are unchanged |
| Preferences.RestoreTarget | main.js:354-358 | a restore applies something iff a non-empty resolution is saved, and then applies exactly that |
| Preferences.SaveThenRestore | main.js:331-358 | restoring after a save applies the saved resolution unless it is empty |
| Preferences.RestoreCounts | main.js:352-367 | a successful restore adds one use of the saved resolution; a failed one or one with nothing saved changes nothing |
| Preferences.ChangeKeepsWellFormed | main.js:267-272 | changing a resolution keeps the store well formed |
| Preferences.ToggleLaunchAtLogin | main.js:372-381 | the stored flag and the login-item setting both become the negation of the old flag, and nothing else changes |
| Preferences.ToggleTwice | main.js:372-381 | toggling twice restores the store and the login-item setting |
| TrayMenu.ItemsRadios | main.js:149-164 | the items built for a list of resolutions are radio items for exactly that list, in order |
| TrayMenu.SectionsPartition | main.js:157-164 | "Most Used" holds exactly the most-used resolutions the display supports, "Available" holds exactly the rest, and together they hold each supported resolution exactly once |
| TrayMenu.CheckedIffCurrent | main.js:149-154 | an item for a `WxH` resolution is checked iff it is the display's current resolution |
| TrayMenu.SubmenuOfRadios | main.js:166-194 | the radio items of the submenu are the "Most Used" section followed by the "Available" section |
| TrayMenu.SubmenuRadios | main.js:157-194 | the same, for the most-used list of the stored usage |
| TrayMenu.AtMostOneChecked | main.js:149-164 | at most one radio item of a submenu carries the current resolution |
| TrayMenu.SubmenuOfSaveRestore | main.js:166-206 | the submenu opens with `Current: …` and offers to save the current label, and it offers a restore iff there is a restore target |
| TrayMenu.SubmenuSaveRestore | main.js:166-206 | the same, with the restore target read from the store |

## Left out

- Running `displayplacer` is not modelled: `getDisplays`, `setDisplayResolution` and
  `checkDisplayPlacerInstalled` are external-process I/O. Whether a resolution change succeeded is
  the `applied` parameter of `ChangeResolution` and `RestorePreferredResolution`.
- `setDisplayResolution`'s own `resolution.split('x')` is not modelled. The command builder takes
  width and height directly.
- The Electron tray, icons, dialogs, the top-level menu items, and the "not installed" and error
  menus are UI.
- `electron-store` persistence is not modelled. The store is an in-memory `Prefs` value.
- The startup sync of the login item is OS integration.
- The `isRefreshing` guard, the timers and the screen-event listeners are asynchronous scheduling.
- `scripts/test-bundling.js` only inspects files on disk and has no behaviour to model.
- `display.name || Display N`: the submenu's own label is not modelled.
- Exact regular-expression semantics are replaced by the `Matcher` abstraction with
  `WellFormedCaptures`. Which line matches which pattern is an input, not derived from the text.
- `toLowerCase` is modelled for ASCII only. A case-insensitive `(on|off)` group only captures ASCII.
- JavaScript's ordering of integer-like object keys is not modelled. Resolution strings such as
  `1920x1080` and persistent ids containing a dash are not array indices, so creation order applies.
- `electron-store`'s dot-path reading of `savedResolutions.${id}` is modelled as a plain lookup by
  id. It differs only for ids that contain a dot, which a `[a-f0-9-]+` id never does.
- Non-number counts and the `NaN` comparator results they would cause are not modelled. Counts
  are integers.
- The `try`/`catch` around tracking, reading most-used and saving is not modelled: store access
  cannot fail in memory.
- `ResolutionUsage.GetMostUsedResolutions`: `limit` is a natural number. A negative `slice` bound,
  which counts from the end, is not modelled, and the app always passes 5.
- `TrayMenu.CheckedIffCurrent`: stated only for resolutions of the `WxH` shape, which is what the
  parser lists and the usage table records. For the literal text `Unknown` the item would be
  checked when the display has no current resolution.
- No allow-list validation of the command's values: the code has none, and
  `BuildDisplayPlacerCommand` follows the code.
- Saving the placeholder `Unknown` as the preferred resolution is modelled as the code does it.
  `Preferences.SavePreferredResolution` stores whatever label the menu shows.
