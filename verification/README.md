# Button widget configuration and next-alarm sensor, modelled in Dafny

This project models two small pieces of logic from the Home Assistant
Android companion app and proves properties about them.

**The button widget configuration screen** (`ButtonWidgetConfigureActivity`)
keeps three pieces of state:

- a catalog of services, keyed by their `domain.service` text;
- the list of form rows (`dynamicFields`) shown for the chosen service;
- the id of the widget being configured.

The model covers these operations on that state:

- **Loading the catalog.** Each fetched service is stored under its service string.
- **Rebuilding the rows when the service text changes.** The `entity_id` row is added unless the schema's target is exactly `false`. The schema keys are then visited in sorted order: keys containing `_id` are put in front, all other keys at the back.
- **Adding a row by hand.**
- **Merging a stored widget's saved payload on reconfiguration.**
- **Assembling the service call** when the widget is added. The call carries the resolved domain and service, the label, the icon and the map of every row that has a value.

**The next-alarm sensor** (`NextAlarmManager.updateNextAlarm`) reads the
platform's next alarm clock. It filters the alarm through the sensor's
"Allow List" setting, which holds creator packages separated by `", "`.
When an alarm is scheduled and that list is empty, it seeds the setting. It reports the sensor state
`utc` with the icon `mdi:alarm` and three attributes.

Modules:

| module | file | what |
|---|---|---|
| `Wrappers` | `wrappers.dfy` | `Option` |
| `Text` | `text.dfy` | Kotlin's `indexOf`/`contains`, `split(sep)`, `split(sep, limit = 2)`, `joinToString`, `replace(c, "")` |
| `KeyOrder` | `key_order.dfy` | Kotlin's `String` order and `sorted()` of a key set (`Ascending`) |
| `ButtonFields` | `button_fields.dfy` | the widget's values and the specification functions: catalog, resolution, `Spread`/`Layout`/`Merge`, `DataMap` |
| `ButtonWidgetConfigure` | `button_widget_configure.dfy` | the activity as a class whose methods update `services` and `dynamicFields` with loops |
| `NextAlarm` | `next_alarm.dfy` | settings, the allow list, the specification function `NextAlarmOutcome`, the settings table and the imperative `UpdateNextAlarm` |

Each imperative method is proved against a specification function:

- `AfterTextChanged` leaves `Layout(text, svc)`.
- `RestoreFields` leaves `Merge(text, svc, old rows, saved)`.
- `AddWidget` sends `DataMap(rows)`.
- `UpdateNextAlarm` returns and writes what `NextAlarmOutcome` decides.

The lemmas state what those functions mean: lengths, how many rows each
key gets, the order of the rows, round trips and accept/skip/seed cases.

`NextAlarmManager.kt:83` seeds the setting with the empty string; `SeedSetting()` holds `""`.

## Model

| member | source | states |
|---|---|---|
| Text.IndexOf | app/src/main/java/io/homeassistant/companion/android/widgets/button/ButtonWidgetConfigureActivity.kt:199 | `Some(i)` exactly when the needle occurs at `i` and at no earlier index; `None` exactly when it occurs at no index (`contains`/`indexOf`) |
| Text.Contains | app/src/main/java/io/homeassistant/companion/android/widgets/button/ButtonWidgetConfigureActivity.kt:199 | Kotlin's `contains`; no contract of its own. `ContainsAt` and `ContainsChar` state its meaning through `IndexOf` |
| Text.ContainsChar | app/src/main/java/io/homeassistant/companion/android/widgets/button/ButtonWidgetConfigureActivity.kt:89-90 | a one-character needle is contained exactly when that character occurs in the text |
| Text.Split | app/src/main/java/io/homeassistant/companion/android/sensors/NextAlarmManager.kt:77 | `split(sep)`: at least one piece; no contract beyond that of its own. `JoinSplit`, `SplitPiecesAreFree`, `SplitWithoutSeparator` and `SplitJoin` state its meaning |
| Text.JoinSplit | app/src/main/java/io/homeassistant/companion/android/sensors/NextAlarmManager.kt:77 | joining the pieces of `split(sep)` with `sep` gives back the original string |
| Text.SplitPiecesAreFree | app/src/main/java/io/homeassistant/companion/android/sensors/NextAlarmManager.kt:77 | no piece of `split(sep)` contains `sep` |
| Text.SplitWithoutSeparator | app/src/main/java/io/homeassistant/companion/android/sensors/NextAlarmManager.kt:77 | a string that does not contain `sep` splits into itself alone |
| Text.FirstSeparatorAfter | app/src/main/java/io/homeassistant/companion/android/sensors/NextAlarmManager.kt:77 | in `p + sep + rest`, with a two-character separator of distinct characters and a `p` free of it, the leftmost occurrence of `sep` is right after `p` |
| Text.SplitJoin | app/src/main/java/io/homeassistant/companion/android/sensors/NextAlarmManager.kt:77 | splitting entries joined with such a separator gives back exactly the entries, when no entry contains it |
| Text.SplitOnce | app/src/main/java/io/homeassistant/companion/android/widgets/button/ButtonWidgetConfigureActivity.kt:89-90 | `split(sep, limit = 2)`: one or two parts; no contract beyond that of its own. `DotRoundTrip` and `SplitOnceDot` state its meaning |
| Text.DotRoundTrip | app/src/main/java/io/homeassistant/companion/android/widgets/button/ButtonWidgetConfigureActivity.kt:89-90 | `split(".", limit = 2)` of `d + "." + s` is `[d, s]` if and only if `d` holds no "." |
| Text.SplitOnceDot | app/src/main/java/io/homeassistant/companion/android/widgets/button/ButtonWidgetConfigureActivity.kt:89-90 | when the text splits into two parts at ".", the first part holds no "." and rejoining them gives back the text; the text stays in one part, the whole text, if and only if it holds no "." |
| Text.Remove | app/src/main/java/io/homeassistant/companion/android/widgets/button/ButtonWidgetConfigureActivity.kt:290 | `replace(c, "")`: the result holds no `c` and no character absent from the input, is no longer, and equals the input when `c` does not occur |
| Text.RemoveAppend | app/src/main/java/io/homeassistant/companion/android/widgets/button/ButtonWidgetConfigureActivity.kt:290 | removing `c` from `a + b` keeps the remaining characters of `a`, then those of `b`, in order |
| Text.RemoveOne | app/src/main/java/io/homeassistant/companion/android/widgets/button/ButtonWidgetConfigureActivity.kt:290 | a single character is dropped if it is `c` and kept otherwise; with `RemoveAppend` this fixes `replace(c, "")` on every string |
| KeyOrder.Below | app/src/main/java/io/homeassistant/companion/android/widgets/button/ButtonWidgetConfigureActivity.kt:193 | Kotlin's `String` order; no contract of its own. `BelowIrreflexive`, `BelowAsymmetric`, `BelowTransitive` and `BelowTotal` state it is a strict total order |
| KeyOrder.Ascending | app/src/main/java/io/homeassistant/companion/android/widgets/button/ButtonWidgetConfigureActivity.kt:193 | `sorted()` of a key set; no contract of its own. `AscendingHead`, `AscendingSpec`, `AscendingCounts` and `AscendingUnique` state its meaning |
| KeyOrder.BelowIrreflexive | app/src/main/java/io/homeassistant/companion/android/widgets/button/ButtonWidgetConfigureActivity.kt:193 | no key sorts before itself |
| KeyOrder.BelowAsymmetric | app/src/main/java/io/homeassistant/companion/android/widgets/button/ButtonWidgetConfigureActivity.kt:193 | two keys never each sort before the other |
| KeyOrder.BelowTransitive | app/src/main/java/io/homeassistant/companion/android/widgets/button/ButtonWidgetConfigureActivity.kt:193 | the string order is transitive |
| KeyOrder.BelowTotal | app/src/main/java/io/homeassistant/companion/android/widgets/button/ButtonWidgetConfigureActivity.kt:193 | of two different keys one sorts before the other |
| KeyOrder.MinExists | app/src/main/java/io/homeassistant/companion/android/widgets/button/ButtonWidgetConfigureActivity.kt:193 | every non-empty key set has a key below all its other keys |
| KeyOrder.MinUnique | app/src/main/java/io/homeassistant/companion/android/widgets/button/ButtonWidgetConfigureActivity.kt:193 | that smallest key is unique |
| KeyOrder.AscendingHead | app/src/main/java/io/homeassistant/companion/android/widgets/button/ButtonWidgetConfigureActivity.kt:193 | `sorted()` starts with the smallest key, followed by the sorted rest |
| KeyOrder.AscendingSpec | app/src/main/java/io/homeassistant/companion/android/widgets/button/ButtonWidgetConfigureActivity.kt:193 | `sorted()` of a key set is strictly ascending, lists exactly the set's keys and has the set's size |
| KeyOrder.AscendingCounts | app/src/main/java/io/homeassistant/companion/android/widgets/button/ButtonWidgetConfigureActivity.kt:193 | each key of the set occurs exactly once in `sorted()`, and no other key occurs |
| KeyOrder.AscendingUnique | app/src/main/java/io/homeassistant/companion/android/widgets/button/ButtonWidgetConfigureActivity.kt:193 | any strictly ascending list of exactly the set's keys is `sorted()` of the set |
| KeyOrder.AscendingSnoc | app/src/main/java/io/homeassistant/companion/android/widgets/button/ButtonWidgetConfigureActivity.kt:193-203 | adding a key above every key of the set appends it to the sorted list |
| KeyOrder.VisitMin | app/src/main/java/io/homeassistant/companion/android/widgets/button/ButtonWidgetConfigureActivity.kt:193-203 | taking the smallest unvisited key keeps every visited key below every unvisited one, and the visited and unvisited keys still make up the whole set |
| ButtonFields.ServiceString | app/src/main/java/io/homeassistant/companion/android/widgets/button/ButtonWidgetConfigureActivity.kt:218-220 | `getServiceString`; no contract of its own. `ServiceStringRoundTrip` states that it splits back into domain and service |
| ButtonFields.HasTarget | app/src/main/java/io/homeassistant/companion/android/widgets/button/ButtonWidgetConfigureActivity.kt:189 | `target !== false`: the `entity_id` row is wanted unless the schema's target is exactly `false`; no contract of its own. `LayoutContents`, `LayoutOrder` and `MergeCounts` state its use |
| ButtonFields.Keyed | app/src/main/java/io/homeassistant/companion/android/widgets/button/ButtonWidgetConfigureActivity.kt:276 | every catalog key is `getServiceString` of its service, as each `services[getServiceString(it)] = it` keeps it; no contract of its own. `Catalog`, `LoadServices` and `CatalogAgreesWithSplit` state its use |
| ButtonFields.Catalog | app/src/main/java/io/homeassistant/companion/android/widgets/button/ButtonWidgetConfigureActivity.kt:275-277 | every catalog key is the service string of its service; every fetched service's string is a key; every stored service was fetched |
| ButtonFields.CatalogLastWins | app/src/main/java/io/homeassistant/companion/android/widgets/button/ButtonWidgetConfigureActivity.kt:275-277 | the service kept under a string is the last fetched service with that string |
| ButtonFields.CatalogStep | app/src/main/java/io/homeassistant/companion/android/widgets/button/ButtonWidgetConfigureActivity.kt:276 | loading one more service stores it under its service string and changes no other entry |
| ButtonFields.Resolve | app/src/main/java/io/homeassistant/companion/android/widgets/button/ButtonWidgetConfigureActivity.kt:88-90 | the domain and service the "add widget" click sends; no contract of its own. `ResolveSpec` and `CatalogAgreesWithSplit` state its meaning |
| ButtonFields.ResolveSpec | app/src/main/java/io/homeassistant/companion/android/widgets/button/ButtonWidgetConfigureActivity.kt:88-90 | resolution fails if and only if the text is not a catalog key and holds no "."; a catalog key resolves to its service's domain and service; otherwise the domain holds no "." and `domain + "." + service` is the text |
| ButtonFields.ServiceStringRoundTrip | app/src/main/java/io/homeassistant/companion/android/widgets/button/ButtonWidgetConfigureActivity.kt:218-220 | splitting `getServiceString(s)` once at "." gives `[domain, service]` if and only if the domain holds no "." |
| ButtonFields.CatalogAgreesWithSplit | app/src/main/java/io/homeassistant/companion/android/widgets/button/ButtonWidgetConfigureActivity.kt:88-90 | in a catalog keyed by service strings, looking a key up and splitting it at its first "." agree when the domain holds no "." |
| ButtonFields.IsId | app/src/main/java/io/homeassistant/companion/android/widgets/button/ButtonWidgetConfigureActivity.kt:199 | `fieldKey.contains("_id")`; no contract of its own. `EntityIdIsId`, `KeysPartition` and `LayoutIdsFirst` state its use |
| ButtonFields.EntityIdIsId | app/src/main/java/io/homeassistant/companion/android/widgets/button/ButtonWidgetConfigureActivity.kt:189-203 | `entity_id` contains `_id` |
| ButtonFields.KeysPartition | app/src/main/java/io/homeassistant/companion/android/widgets/button/ButtonWidgetConfigureActivity.kt:199-202 | the keys put in front all contain `_id`, the keys put at the back all do not, and together they hold every visited key exactly as often |
| ButtonFields.KeysPartitionAscending | app/src/main/java/io/homeassistant/companion/android/widgets/button/ButtonWidgetConfigureActivity.kt:199-202 | both halves of that partition of an ascending key list stay ascending |
| ButtonFields.Spread | app/src/main/java/io/homeassistant/companion/android/widgets/button/ButtonWidgetConfigureActivity.kt:193-203 | the rows the `sorted().forEach` loop leaves around its starting rows; no contract of its own. `SpreadSnoc`, `SpreadVisit`, `SpreadCounts`, `SpreadRows`, `SpreadHead`, `SpreadTail` and `SpreadOrder` state its meaning |
| ButtonFields.SpreadSnoc | app/src/main/java/io/homeassistant/companion/android/widgets/button/ButtonWidgetConfigureActivity.kt:199-202 | visiting one more key puts an empty row for it at the front when it contains `_id`, else at the back |
| ButtonFields.SpreadVisit | app/src/main/java/io/homeassistant/companion/android/widgets/button/ButtonWidgetConfigureActivity.kt:297-309 | visiting the next key in ascending order leaves the rows unchanged when it is already saved, and otherwise prepends or appends its row |
| ButtonFields.SpreadCounts | app/src/main/java/io/homeassistant/companion/android/widgets/button/ButtonWidgetConfigureActivity.kt:193-203 | the loop adds exactly one row per visited key and keeps the rows it started from |
| ButtonFields.SpreadRows | app/src/main/java/io/homeassistant/companion/android/widgets/button/ButtonWidgetConfigureActivity.kt:193-203 | every row the loop adds is an empty row of the service text |
| ButtonFields.SpreadHead | app/src/main/java/io/homeassistant/companion/android/widgets/button/ButtonWidgetConfigureActivity.kt:193-203 | visiting ascending keys, the leading rows are the `_id` keys in descending order |
| ButtonFields.SpreadTail | app/src/main/java/io/homeassistant/companion/android/widgets/button/ButtonWidgetConfigureActivity.kt:193-203 | visiting ascending keys, the closing rows are the other keys in ascending order |
| ButtonFields.SpreadOrder | app/src/main/java/io/homeassistant/companion/android/widgets/button/ButtonWidgetConfigureActivity.kt:193-203 | `_id` keys descending at the head, the starting rows unchanged in the middle, the other keys ascending at the tail |
| ButtonFields.EntityRow | app/src/main/java/io/homeassistant/companion/android/widgets/button/ButtonWidgetConfigureActivity.kt:189-191 | the `entity_id` row added when the service has a target, none otherwise; no contract of its own. `LayoutContents`, `LayoutOrder` and `MergeCounts` state its use |
| ButtonFields.Layout | app/src/main/java/io/homeassistant/companion/android/widgets/button/ButtonWidgetConfigureActivity.kt:173-203 | the rows rebuilt for a catalog service; no contract of its own. `LayoutContents`, `LayoutOrder` and `LayoutIdsFirst` state its meaning |
| ButtonFields.LayoutContents | app/src/main/java/io/homeassistant/companion/android/widgets/button/ButtonWidgetConfigureActivity.kt:173-203 | the rebuilt list has one row per schema key plus one `entity_id` row when the target is not `false`, and nothing else; every row is an empty row of the service text |
| ButtonFields.LayoutOrder | app/src/main/java/io/homeassistant/companion/android/widgets/button/ButtonWidgetConfigureActivity.kt:189-203 | rebuilt list: schema `_id` keys in descending order, then the `entity_id` row if the target is not `false`, then the other schema keys in ascending order |
| ButtonFields.LayoutIdsFirst | app/src/main/java/io/homeassistant/companion/android/widgets/button/ButtonWidgetConfigureActivity.kt:189-203 | in the rebuilt list every row whose field contains `_id`, `entity_id` included, comes before every row whose field does not |
| ButtonFields.Restored | app/src/main/java/io/homeassistant/companion/android/widgets/button/ButtonWidgetConfigureActivity.kt:290 | a saved value with its brackets removed; no contract of its own. `RestoredSpec` and `RestoredList` state its meaning |
| ButtonFields.RestoredSpec | app/src/main/java/io/homeassistant/companion/android/widgets/button/ButtonWidgetConfigureActivity.kt:290 | a restored value holds no `[` or `]`; a value without brackets is kept as it is, followed by `", "` for `entity_id` only |
| ButtonFields.RestoredList | app/src/main/java/io/homeassistant/companion/android/widgets/button/ButtonWidgetConfigureActivity.kt:290 | a saved list `[x]` with no brackets inside is restored as `x`, followed by `", "` for `entity_id` only |
| ButtonFields.SavedRows | app/src/main/java/io/homeassistant/companion/android/widgets/button/ButtonWidgetConfigureActivity.kt:289-293 | one row per saved entry, in payload order, carrying the saved key and its restored value |
| ButtonFields.SavedKeys | app/src/main/java/io/homeassistant/companion/android/widgets/button/ButtonWidgetConfigureActivity.kt:288-292 | the `addedFields` set the restore loop fills; no contract of its own. `SavedStep`, `MergeCounts` and `MergeSkipsSaved` state its use |
| ButtonFields.DistinctKeys | app/src/main/java/io/homeassistant/companion/android/widgets/button/ButtonWidgetConfigureActivity.kt:286-289 | the saved payload is a `HashMap`, so its keys are distinct; no contract of its own. `SavedRowCounts` and `MergeCounts` rely on it |
| ButtonFields.SavedStep | app/src/main/java/io/homeassistant/companion/android/widgets/button/ButtonWidgetConfigureActivity.kt:289-293 | each saved entry adds its key to the added set and appends one row carrying its restored value |
| ButtonFields.SavedRowCounts | app/src/main/java/io/homeassistant/companion/android/widgets/button/ButtonWidgetConfigureActivity.kt:289-293 | with distinct saved keys, each saved key names exactly one saved row |
| ButtonFields.Merge | app/src/main/java/io/homeassistant/companion/android/widgets/button/ButtonWidgetConfigureActivity.kt:288-309 | the rows a restore leaves; no contract of its own. `MergeCounts`, `MergeMiddle` and `MergeSkipsSaved` state its meaning |
| ButtonFields.MergeCounts | app/src/main/java/io/homeassistant/companion/android/widgets/button/ButtonWidgetConfigureActivity.kt:288-309 | after the merge each key has the earlier rows' count plus: one row if saved; one if a schema key not saved; one `entity_id` row only if the target is not `false` and `entity_id` was not saved. No saved key is added twice |
| ButtonFields.MergeMiddle | app/src/main/java/io/homeassistant/companion/android/widgets/button/ButtonWidgetConfigureActivity.kt:288-309 | the earlier rows and the saved rows stay together and in order, right after the leading `_id` rows and the `entity_id` row |
| ButtonFields.MergeSkipsSaved | app/src/main/java/io/homeassistant/companion/android/widgets/button/ButtonWidgetConfigureActivity.kt:294-309 | no row added around the earlier and saved rows names a saved key |
| ButtonFields.DataMap | app/src/main/java/io/homeassistant/companion/android/widgets/button/ButtonWidgetConfigureActivity.kt:111-116 | the service-data map built from the rows; no contract of its own. `DataMapKeys` and `DataMapValues` state its meaning |
| ButtonFields.DataMapKeys | app/src/main/java/io/homeassistant/companion/android/widgets/button/ButtonWidgetConfigureActivity.kt:111-116 | the service-data map's keys are exactly the fields of rows that have a value |
| ButtonFields.DataMapValues | app/src/main/java/io/homeassistant/companion/android/widgets/button/ButtonWidgetConfigureActivity.kt:111-116 | each field maps to the value of the last row of that field that has a value |
| ButtonWidgetConfigure.ButtonWidgetConfigureActivity.constructor | app/src/main/java/io/homeassistant/companion/android/widgets/button/ButtonWidgetConfigureActivity.kt:62-69 | the screen starts with an empty catalog, which is trivially keyed by service strings, and no rows |
| ButtonWidgetConfigure.ButtonWidgetConfigureActivity.LoadServices | app/src/main/java/io/homeassistant/companion/android/widgets/button/ButtonWidgetConfigureActivity.kt:275-277 | the loop leaves the old catalog overridden by `Catalog(fetched)`, and every key stays the service string of its service |
| ButtonWidgetConfigure.ButtonWidgetConfigureActivity.InsertSchemaFields | app/src/main/java/io/homeassistant/companion/android/widgets/button/ButtonWidgetConfigureActivity.kt:193-203 | the `sorted().forEach` loop, skipping saved keys, leaves the rows as `Spread` of the ascending unskipped keys around the rows it started from |
| ButtonWidgetConfigure.ButtonWidgetConfigureActivity.AfterTextChanged | app/src/main/java/io/homeassistant/companion/android/widgets/button/ButtonWidgetConfigureActivity.kt:170-212 | a catalog key replaces all previous rows with `Layout(text, svc)`; any other text leaves no rows |
| ButtonWidgetConfigure.ButtonWidgetConfigureActivity.AddField | app/src/main/java/io/homeassistant/companion/android/widgets/button/ButtonWidgetConfigureActivity.kt:150-156 | one empty row for the typed key is appended and the other rows are kept |
| ButtonWidgetConfigure.ButtonWidgetConfigureActivity.RestoreFields | app/src/main/java/io/homeassistant/companion/android/widgets/button/ButtonWidgetConfigureActivity.kt:279-309 | it succeeds exactly when the stored widget's service text is a catalog key, and then leaves `Merge(text, svc, old rows, saved)`; otherwise the rows are unchanged |
| ButtonWidgetConfigure.ButtonWidgetConfigureActivity.AddWidget | app/src/main/java/io/homeassistant/companion/android/widgets/button/ButtonWidgetConfigureActivity.kt:76-136 | the creation error occurs if and only if the text does not resolve or no icon is set; otherwise it sends the widget id, the resolved domain and service, the label, the icon and `DataMap(rows)` |
| NextAlarm.FirstNamed | app/src/main/java/io/homeassistant/companion/android/sensors/NextAlarmManager.kt:63 | index `i` holds the first setting with the given name, as `firstOrNull` picks it; no contract of its own. `FindSetting` and `AllowPackageList` state its use |
| NextAlarm.FindSetting | app/src/main/java/io/homeassistant/companion/android/sensors/NextAlarmManager.kt:63 | the index of the first setting with the given name, or `None` when no setting has it |
| NextAlarm.AllowPackageList | app/src/main/java/io/homeassistant/companion/android/sensors/NextAlarmManager.kt:63 | the value of the first "Allow List" setting, or `""` when there is none |
| NextAlarm.Allowed | app/src/main/java/io/homeassistant/companion/android/sensors/NextAlarmManager.kt:78 | a package passes a non-empty list when it is one of its `", "` entries; no contract of its own. `AllowListFilters`, `SingleEntryList` and `JoinedListAdmits` state its meaning |
| NextAlarm.CreatorPackage | app/src/main/java/io/homeassistant/companion/android/sensors/NextAlarmManager.kt:72 | the alarm's creator package, or `"Unknown"`; no contract of its own. `UnknownCreator` states it |
| NextAlarm.Report | app/src/main/java/io/homeassistant/companion/android/sensors/NextAlarmManager.kt:100-111 | the sensor update sent; no contract of its own. `ReportShape` states its shape |
| NextAlarm.NextAlarmOutcome | app/src/main/java/io/homeassistant/companion/android/sensors/NextAlarmManager.kt:51-112 | the whole decision of `updateNextAlarm`; no contract of its own. `DisabledDoesNothing`, `NoAlarmReportsDefaults`, `AllowListFilters`, `EmptyListSeeds`, `UnknownCreator`, `SeededOnlyWhenEmpty` and `ReportShape` state its meaning, and `UpdateNextAlarm` is proved to follow it |
| NextAlarm.SeedSetting | app/src/main/java/io/homeassistant/companion/android/sensors/NextAlarmManager.kt:83 | the seeded setting (`next_alarm`, "Allow List", `""`, `list-apps`); no contract of its own. `UpdateNextAlarm` and `SeededOnlyWhenEmpty` state when it is written |
| NextAlarm.SensorDao.GetSettings | app/src/main/java/io/homeassistant/companion/android/sensors/NextAlarmManager.kt:62 | `sensorDao.getSettings(id)` read from the table; no contract of its own beyond `SettingsOf`, whose contract states which settings it returns |
| NextAlarm.SettingsOf | app/src/main/java/io/homeassistant/companion/android/sensors/NextAlarmManager.kt:62 | `getSettings(id)` holds exactly the table's settings for that sensor |
| NextAlarm.SensorDao.Add | app/src/main/java/io/homeassistant/companion/android/sensors/NextAlarmManager.kt:83 | the setting is appended to the table |
| NextAlarm.UpdateNextAlarm | app/src/main/java/io/homeassistant/companion/android/sensors/NextAlarmManager.kt:51-112 | returns the update `NextAlarmOutcome` decides; the table gains exactly one `("Allow List", "", "list-apps")` row when it seeds, and no row otherwise |
| NextAlarm.DisabledDoesNothing | app/src/main/java/io/homeassistant/companion/android/sensors/NextAlarmManager.kt:53-54 | a disabled sensor writes nothing and reports nothing |
| NextAlarm.NoAlarmReportsDefaults | app/src/main/java/io/homeassistant/companion/android/sensors/NextAlarmManager.kt:56-59 | without an alarm: state `"unavailable"`, trigger time 0, local time and package `""`; nothing seeded |
| NextAlarm.AllowListFilters | app/src/main/java/io/homeassistant/companion/android/sensors/NextAlarmManager.kt:76-81 | with a non-empty list an alarm is skipped if and only if its package is not one of the `", "`-separated entries; an accepted alarm reports its formatted times and package; nothing is seeded |
| NextAlarm.EmptyListSeeds | app/src/main/java/io/homeassistant/companion/android/sensors/NextAlarmManager.kt:82-84 | with an empty list every alarm is reported and the setting is seeded |
| NextAlarm.UnknownCreator | app/src/main/java/io/homeassistant/companion/android/sensors/NextAlarmManager.kt:72 | an alarm without a creator package is reported as `"Unknown"`, and passes a non-empty list if and only if `"Unknown"` is one of its entries |
| NextAlarm.SeededOnlyWhenEmpty | app/src/main/java/io/homeassistant/companion/android/sensors/NextAlarmManager.kt:71-84 | the setting is seeded if and only if the sensor is enabled, an alarm is scheduled and the list is empty |
| NextAlarm.ReportShape | app/src/main/java/io/homeassistant/companion/android/sensors/NextAlarmManager.kt:100-111 | every report is for `next_alarm`, carries icon `mdi:alarm` and has exactly the attributes "Local Time", "Time in Milliseconds" and "Package" |
| NextAlarm.SingleEntryList | app/src/main/java/io/homeassistant/companion/android/sensors/NextAlarmManager.kt:77-78 | a list without `", "` admits exactly the one package it names |
| NextAlarm.JoinedListAdmits | app/src/main/java/io/homeassistant/companion/android/sensors/NextAlarmManager.kt:77-78 | a list written as names joined by `", "` admits exactly those names, when no name contains `", "` |
| NextAlarm.AllowListEntries | app/src/main/java/io/homeassistant/companion/android/sensors/NextAlarmManager.kt:77 | the entries a list is cut into hold no `", "`, and joining them with `", "` gives back the list |

## Left out

- Android UI is left out: views, the "add field" dialog, toasts, the adapters and their notifications, the icon dialog and icon pack, `setResult`/`finish` and the delete confirmation. A failed "add widget" click is the `CreationError` outcome; a failed restore returns `false`.
- The coroutines that fetch services and entities are left out. The fetched services are the input of `LoadServices`, and the caller decides when `RestoreFields` runs. Entities only feed the field adapter and are not modelled.
- Jackson serialisation is left out. The saved payload is a sequence of (key, value text) pairs in the map's iteration order; each value is its `toString()` text. The sent service data is a `map<string, string>`, not JSON.
- Only the state the sent intent carries is modelled, as a `WidgetCall` value. The broadcast itself is not.
- In `onCreate`, reading the widget id from the intent, finishing on an invalid id, showing the stored label, and the service adapter's `add`/`addAll`/`sort` are left out. `RestoreFields` starts from the catalog already loaded.
- Edits to row values made through the field adapter are not modelled: `AddWidget` reads whatever rows are held.
- `isEnabled` is an input of `UpdateNextAlarm`. The `AlarmManager` lookup is the input `AlarmQuery`, whose `QueryFailed` stands for an exception thrown before any variable was assigned.
- UpdateNextAlarm: an exception after `pendingIntent` and `triggerTime` were set (from `sensorDao.add` or the calendar formatting) would report those values with the default `utc`, and with the default local time unless the throw comes after `NextAlarmManager.kt:88` assigned it. The model does not cover that path.
- `GregorianCalendar`/`SimpleDateFormat` formatting is left out. The two formatted strings come from the caller-supplied functions `formatLocal` and `formatUtc`.
- Log calls are left out.
- The settings table is a sequence with one write, `Add`. Room is not modelled.
- NextAlarm.SettingsOf: the contract states membership only, not that the table order is kept, although the function body keeps it.
- ButtonFields.HasTarget: compares `Target` values where the source tests `target !== false` by reference (`ButtonWidgetConfigureActivity.kt:189`, `:294`). The two agree because a boxed `false` is always the shared `Boolean.FALSE`, so no identity check is dropped.
- KeyOrder.Below compares Dafny characters. Kotlin compares UTF-16 code units, which differs only for keys outside the Basic Multilingual Plane.
- The trigger time (a Kotlin `Long`) is an unbounded `int`. It is only passed along, never computed with.
