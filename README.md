# Metrics dashboard: theme synchroniser, control toggles and chart projector

This project models the callbacks of a single-page Dash dashboard. The
dashboard plots disk, CPU and memory metrics loaded from a SQLite file.
The model covers four parts:

- **Theme synchroniser.** `get_theme_from_query` and `apply_theme` read the
  theme from the page URL. `reload_with_theme` writes the theme into the
  URL, switches the plot template and rebuilds the layout.
- **Layout defaults.** `get_layout` fixes the colours of each theme and the
  initial value and options of every dropdown.
- **Control-visibility resolver.** `toggle_controls` shows the control group
  of the selected table and hides the other two.
- **Chart projector.** `update_graph` turns the selections and the loaded
  tables into a one-trace figure.

The Python library calls these callbacks depend on are modelled from their
documented behaviour, over `seq<char>`:

- `str.partition`, `split`, `join`, `lstrip`, `replace` and `title`
  (module `PyStr`).
- `urllib.parse.parse_qs`, `parse_qsl`, `urlencode(doseq=True)`,
  `quote_plus` and `unquote` (module `Url`).

A query dict is an insertion-ordered list of `(key, values)` entries.

Module layout:

| module | file | what it holds |
|---|---|---|
| `Wrappers` | wrappers.dfy | `Option`, `Result` |
| `PyStr` | pystr.dfy | the string methods |
| `Url` | url.dfy | query-string parsing and encoding |
| `Metrics` | metrics.dfy | rows of the three tables, cells, column sets |
| `Chart` | chart.dfy | `update_graph` and the properties of its figures |
| `Controls` | controls.dfy | `toggle_controls` |
| `Page` | page.dfy | the theme colours and dropdown defaults of `get_layout`; `unique()` |
| `Theme` | theme.dfy | `get_theme_from_query`, `apply_theme`, the href `reload_with_theme` builds |
| `Dashboard` | dashboard.dfy | class `App`: template and layout, `ReloadWithTheme` |

The main results:

- **Round trip.** The href `reload_with_theme` builds, with the `#fragment`
  set aside as the corrected `Theme.NewHref` does, makes `apply_theme` read
  back the theme written (`Theme.ThemeRoundTrip`). The code as written,
  `Theme.NewHrefAsWritten`, has the same round trip when no `#` precedes
  the first `?` (`Theme.ThemeRoundTripAsWritten`).
- **Rest of the URL kept.** The corrected href keeps the base and the
  fragment. Every other parameter that `parse_qs` keeps, that is one with a
  non-empty value, keeps its decoded values and its place
  (`Theme.NewHrefParts`). As written, the text before the first `?` is
  kept, and so is every such parameter of the text after it
  (`Theme.NewHrefPartsAsWritten`). Kept parameters are re-encoded, so
  `a=x%20y` comes back as `a=x+y`. A parameter with a blank value (`a=`)
  or with no `=` (`flag`) is dropped by both hrefs
  (`Theme.BlankParameterDropped`). The two agree on hrefs without
  a `#` (`Theme.AsWrittenWithoutFragment`); with one, they differ (see
  "## Findings").
- **Codec.** `parse_qs(urlencode(d, doseq=True)) == d` for every dict that
  `parse_qs` can return (`Url.ParseQsUrlEncode`).
- **Disk chart.** It plots exactly the selected device's rows
  (`Chart.DiskChart`, `Chart.FilterCount`).
- **Control groups.** Exactly one is shown, and it belongs to a table that
  `update_graph` can draw (`Controls.ToggleControls`,
  `Controls.ControlsMatchGraph`).
- **Initial page.** It shows a non-empty chart (`Page.InitialChart`).

## Model

| member | source | states |
|---|---|---|
| `Theme.GetThemeFromQuery` | app.py:48-50 | The result is always `light` or `dark`. It is `dark` exactly when the first `theme` value is `dark`, so a missing key or any other value gives `light`. |
| `Theme.ApplyTheme` | app.py:161-163 | Stripping the leading `?`, parsing and picking the theme always gives `light` or `dark`. |
| `Theme.ThemeRoundTrip` | app.py:161-183 | For `light` and `dark`, the new href (with the fragment set aside) makes `apply_theme` return the theme that was written. |
| `Theme.ThemeRoundTripAsWritten` | app.py:172-183 | The code as written has the same round trip when no `#` precedes the first `?` of the href. |
| `Theme.NewHrefAsWritten` | app.py:173-176 | As written: the new href splits at its first `?` into the old href's text before its first `?` and the encoding of the old query, after the first `?`, with `theme` set. |
| `Theme.NewHrefPartsAsWritten` | app.py:173-176 | As written: the text before the first `?` is kept. In the new query `theme` is `[theme]`, every other key keeps its values, and keys keep their order; `theme` is appended when it was absent. |
| `Theme.NewHref` | app.py:173-176 | Corrected definition: the new href keeps the base and the fragment of the old one, and its query is the encoding of the old query with `theme` set. |
| `Theme.AsWrittenWithoutFragment` | app.py:173-176 | On an href without `#`, the code as written and the corrected definition build the same href. |
| `Theme.AsWrittenQuery` | app.py:173-176 | As written, the new href has no fragment, and every key other than `theme` keeps its values from everything after the first `?`. |
| `Theme.FragmentJoinsValue` | app.py:173-176 | As written, for `base?key=value#fragment` the page reads `key` as `value`, the reloaded page reads it as `value#fragment`, and the fragment is gone. |
| `Theme.ThemedQuery` | app.py:174-175 | The themed dict has `theme` set to `[theme]`. Every other key keeps the values `parse_qs` gave it, and keys keep their order; `theme` is appended when it was absent. |
| `Theme.BlankParameterDropped` | app.py:173-176 | For `base?key=` and for `base?key`, neither the href as written nor the corrected one carries `key` on. |
| `Theme.BlankQueryDropped` | app.py:173-176 | When the query parses to nothing, the reloaded query has no key other than `theme`, in both hrefs. |
| `Theme.TemplateFor` | app.py:178-181 | The template is `plotly_dark` exactly for `dark`, and `plotly` for any other theme. |
| `Theme.NewHrefParts` | app.py:173-176 | Corrected definition: the new href keeps the base and the fragment. Its query has `theme` set to `[theme]`. Every other key keeps its values, and keys keep their order; `theme` is appended when it was absent. |
| `Theme.ThemedQueryRoundTrip` | app.py:174-176 | The themed dict is well formed and its encoding is not empty. Parsing that encoding gives the dict back. |
| `Theme.AssembledHref` | app.py:173 | `base?query#fragment` splits back into its three parts. |
| `Theme.ApplyThemeEncoded` | app.py:161-163 | `apply_theme` on `?` plus an encoded dict reads the theme of that dict. |
| `Theme.ReadBackTheme` | app.py:161-183 | A browser that loads `base?query#fragment` carrying a themed query reads that theme back. |
| `Theme.FragmentLosesTheme` | app.py:173-183 | As written, `base#fragment` switched to any theme reads back `light`. |
| `Theme.FragmentExample` | app.py:173-183 | As written, `p#f` switched to `dark` reads back `light`. |
| `Theme.SearchInFragment` | app.py:161-162 | A `?` after the `#` starts no query: the search is empty. |
| `Theme.ApplyThemeEmpty` | app.py:161-163 | An empty search gives `light`. |
| `Theme.BaseOf` | app.py:173 | Corrected split: the base of an href, before the query and the fragment, holds neither `?` nor `#`. |
| `Theme.QueryOf` | app.py:173 | Corrected split: the query of an href, before its fragment, holds no `#`. |
| `Dashboard.App.constructor` | app.py:271-273 | At start-up the template is `plotly` and the layout is the light one. The template and the layout belong to the same theme. |
| `Dashboard.App.ReloadWithTheme` | app.py:172-183 | Returns the corrected new href (`Theme.NewHref`) and `theme` as the class name. Sets the template (`plotly_dark` for `dark`, `plotly` otherwise) and the layout of `theme`. Keeps template and layout consistent. For `light` and `dark`, `apply_theme` reads the theme back from the new href. |
| `Page.Colours` | app.py:55-56 | Background and text always differ. The background is dark, and the text white, exactly for `dark`. |
| `Page.ThemeTokens` | app.py:55-56 | Background and text are `#121212`/`#ffffff` for `dark` and `#ffffff`/`#000000` otherwise, and they always differ. The template is `plotly_dark` exactly when the colours are the dark ones (lines 178-181). |
| `Page.GetLayout` | app.py:53-148 | A layout exists exactly when the disk table has rows (otherwise `unique()[0]` raises). Class name and theme value are the theme, with the theme's colours. Defaults: table `disk`, disk column `available_space_gb`, CPU column `used_percent`, memory column `used_gb`. The device defaults to the first row's key. The device options are `unique()` of the `key` column: the keys present, each once, in order of first appearance (`Page.Unique`, `Page.UniqueOrder`). The default device is the first option. |
| `Page.Unique` | app.py:117-118 | `unique()` holds exactly the values of the column, each once. It starts with the first value. |
| `Page.UniqueOrder` | app.py:117-118 | `unique()` lists values in the order of their first occurrence. |
| `Page.UniqueFromMember` | app.py:117 | A value is kept by the scan exactly when it occurs and was not seen before. |
| `Page.UniqueFromDistinct` | app.py:117 | The scan never keeps a value twice. |
| `Page.UniqueFromOrder` | app.py:117 | The kept values appear in increasing order of first occurrence. |
| `Page.DropdownsDrawCharts` | app.py:106-148 | Every combination of dropdown options draws a chart and shows a control group. A device from the options list gives a disk chart with at least one point. |
| `Page.InitialChart` | app.py:94-118 | The initial page shows the disk controls only and plots `Available Space Gb Over Time for` the first device, with at least one point. |
| `Page.DiskControlsShown` | app.py:191-192 | Selecting `disk` shows the disk group and hides the CPU and memory groups. |
| `Controls.ToggleControls` | app.py:190-196 | Returns styles exactly for `disk`, `cpu` and `memory`; for any other value the function falls through and returns nothing. The group of the selected table is `block` and the other two are `none`. |
| `Controls.ControlsMatchGraph` | app.py:190-268 | A table gets control styles exactly when `update_graph` does not fail on an unbound `fig`. |
| `Chart.UpdateGraph` | app.py:209-268 | A figure exists exactly when the table is one of the three and the chosen column is one of its data frame's columns. An unknown table fails with the unbound `fig`, and an unknown column raises `KeyError`. The config is always `scrollZoom: True`. |
| `Chart.DiskChart` | app.py:210-230 | The disk chart has exactly as many points as the selected device has rows. Point `i` is `(timestamp, column value)` of the `i`-th row with that device, in table order. It is blue and named after the column, with title `<Column Title> Over Time for <device>`. |
| `Chart.CpuChart` | app.py:231-248 | The CPU chart plots every CPU row in table order, in orange, with title `<Column Title> Over Time`. |
| `Chart.MemoryChart` | app.py:249-266 | The memory chart plots every memory row in table order, in green, with title `<Column Title> Over Time`. |
| `Chart.FilterByKey` | app.py:212 | The device mask keeps exactly the rows whose key is the device, and never more rows than the table has. |
| `Chart.FilterConcat` | app.py:212 | The mask keeps table order: it distributes over concatenation. |
| `Chart.FilterCount` | app.py:212 | The filtered table has as many rows as the device occurs in the `key` column. |
| `Chart.FilterIdempotent` | app.py:212 | Filtering twice by the same device is filtering once. |
| `Chart.DiskSeries` | app.py:218-219 | One point per filtered row. |
| `Chart.CpuSeries` | app.py:236-237 | One point per CPU row. |
| `Chart.MemorySeries` | app.py:254-255 | One point per memory row. |
| `Chart.ColumnTitle` | app.py:226 | The title of a column has as many characters as the column. |
| `Chart.ColumnTitleAt` | app.py:226 | In the title, every `_` of the column is a space, and every other uncased character is kept. A letter is upper-cased when it starts a word of the column (no letter before it) and lower-cased otherwise. |
| `Chart.MakeFigure` | app.py:214-229 | The figure carries the given points, name, colour and title, mode `lines+markers`, axis titles `Timestamp` and `Value`, and hover mode `x unified`. |
| `Chart.WordColumnTitle` | app.py:226 | A one-word column is titled by capitalising it. |
| `Chart.SnakeColumnTitle` | app.py:226 | In a snake-case name, the first word is capitalised and the underscore after it becomes a space. |
| `Chart.AvailableSpaceTitle` | app.py:226 | `available_space_gb` is titled `Available Space Gb`. |
| `Chart.UsedSpaceTitle` | app.py:226 | `used_space_gb` is titled `Used Space Gb`. |
| `Chart.UsedPercentTitle` | app.py:244 | `used_percent` is titled `Used Percent`. |
| `Chart.UsedGbTitle` | app.py:262 | `used_gb` is titled `Used Gb`. |
| `Metrics.DiskCell` | app.py:219 | `device_data[disk_column]` of one row: a timestamp exactly for `timestamp`, the row's text exactly for `key`, and a number otherwise. |
| `Metrics.CpuCell` | app.py:237 | `cpu_df[cpu_column]` of one row: a timestamp exactly for `timestamp`, a number otherwise. |
| `Metrics.MemoryCell` | app.py:255 | `memory_df[memory_column]` of one row: a timestamp exactly for `timestamp`, a number otherwise. |
| `Metrics.DiskCells` | app.py:219 | Reading every column of a disk row rebuilds the row. |
| `Metrics.CpuCells` | app.py:237 | Reading every column of a CPU row rebuilds the row. |
| `Metrics.MemoryCells` | app.py:255 | Reading every column of a memory row rebuilds the row. |
| `Metrics.DeviceColumn` | app.py:117 | The `key` column has one entry per disk row, in row order. |
| `PyStr.Partition` | app.py:173 | The found flag is true exactly when the separator occurs. When found, the parts reassemble the string and the head holds no separator. When not found, the head is the whole string and the tail is empty. |
| `PyStr.PartitionAt` | app.py:173 | A separator after a separator-free prefix is where the string is split. |
| `PyStr.Split` | app.py:174 | There is at least one piece, no piece holds the separator, and joining the pieces gives back the string. |
| `PyStr.SplitJoin` | app.py:174-176 | Splitting a join of separator-free pieces gives back the pieces. |
| `PyStr.JoinExcludes` | app.py:176 | A character outside every piece, other than the separator, is not in the join. |
| `PyStr.LStrip` | app.py:162 | The result is a suffix, does not start with the stripped character, and only that character was removed. |
| `PyStr.Replace` | app.py:226 | `replace` keeps the length. |
| `PyStr.ReplaceAt` | app.py:226 | Each occurrence of the old character becomes the new one, and every other character is kept. |
| `PyStr.ReplaceConcat` | app.py:226 | `replace` distributes over concatenation. |
| `PyStr.ReplaceAbsent` | app.py:226 | A string without the old character is unchanged. |
| `PyStr.Title` | app.py:226 | `title()` keeps the length. |
| `PyStr.Capitalised` | app.py:226 | Capitalising keeps the length and every letter after the first, and leaves no lower-case first letter. |
| `PyStr.TitleLowerWord` | app.py:226 | `title()` capitalises a lower-case word, which holds no `_`. |
| `PyStr.TitleAt` | app.py:226 | `title()` upper-cases a letter that starts a word, lower-cases every other letter, and keeps everything else. |
| `PyStr.TitleFromConcat` | app.py:226 | `title()` of a concatenation continues from the last character of the first part. |
| `PyStr.TitleSpaced` | app.py:226 | `title()` of a lower-case word, a space and a rest titles the word and the rest separately. |
| `PyStr.TitleIdempotent` | app.py:226 | Titling twice is titling once. |
| `Url.QuotePlus` | app.py:176 | Encoding never shortens its input and leaves no `&`, `=`, `?` or `#` in it. |
| `Url.DecodeQuotePlus` | app.py:174-176 | Decoding (`+` to space, then `%XX`) undoes `quote_plus`. |
| `Url.DecodePlain` | app.py:162-174 | A string without `+` and `%` decodes to itself. |
| `Url.DecodeField` | app.py:162-174 | A segment is kept exactly when it has an `=` and a non-blank raw value. |
| `Url.ParseQsl` | app.py:162-174 | Every field `parse_qsl` returns has a non-blank value. |
| `Url.ParseQs` | app.py:162-174 | `parse_qs` returns distinct keys, each with a non-empty list of non-blank values. |
| `Url.ParseQsSingle` | app.py:174 | One `key=value` field that needs no decoding parses to that single entry, whatever else the value holds, `#` included. |
| `Url.ParseQsBlank` | app.py:174 | A field with a blank value, or with no `=`, parses to an empty dict. |
| `Url.ParseQsEmpty` | app.py:162-174 | An empty query parses to an empty dict. |
| `Url.GetFirst` | app.py:49 | `params.get(key)` finds a value exactly when `key` is one of the keys, and answers the values of the first entry with that key. |
| `Url.Add` | app.py:174 | Appending a value changes only that key's list; a new key goes last. |
| `Url.Set` | app.py:175 | `params["theme"] = ...` replaces that key's values. Every other key is unchanged. The key keeps its place, or goes last when it is new. |
| `Url.SetWellFormed` | app.py:175 | Setting a non-empty list of non-blank values keeps a dict well formed. |
| `Url.UrlEncode` | app.py:176 | The encoded query holds no `?` and no `#`. |
| `Url.ParseQslEncode` | app.py:174-176 | `parse_qsl` of an encoding gives back the encoded fields. |
| `Url.GroupFields` | app.py:174-176 | Grouping the fields of a well-formed dict, after entries with other keys, appends that dict. |
| `Url.ParseQsUrlEncode` | app.py:174-176 | `parse_qs(urlencode(d, doseq=True)) == d` for every well-formed `d`. |

## Left out

- Loading the three tables from SQLite (app.py:13-38) is not modelled. The tables are the `Dataset` given to the `Dashboard.App` constructor.
- The `to_datetime` conversion (app.py:40-43) is not modelled. Timestamps are ordered instants (`int`), and metric values are `real`s that are only copied, never computed on.
- The Dash component tree, the callback wiring, the plotly objects and `app.run_server` are left out. Only the values the callbacks compute are modelled: the `className`, colours and dropdown defaults of `get_layout`, and the trace and layout fields of the figure.
- `Dashboard.App.constructor` requires a non-empty disk table. With an empty table, `get_layout` raises `IndexError` at start-up (`Page.GetLayout` returns `Err(IndexError)`).
- `PyStr.Title` cases only ASCII letters; Python's `title()` follows Unicode casing.
- `Url.QuotePlus` leaves non-ASCII characters unencoded, and `Url.Unquote` reads a `%XX` escape as one Latin-1 character. Python encodes and decodes these as UTF-8. Every ASCII string round-trips exactly as in Python.
- `Url.ParseQs` splits only on `&` (the Python default). `max_num_fields`, `strict_parsing` and `errors` are not modelled.
- The reload keeps only what `parse_qs` keeps. A query parameter with a blank value or without `=` is dropped, and the other parameters are re-encoded rather than passed through as written. This holds for the code as written and for the corrected `Theme.NewHref`, which corrects only the fragment (`Theme.BlankParameterDropped`).
- `Theme.Search` reduces the browser's URL parsing to the first `#` and the `?` before it.
- `Theme.GetThemeFromQuery` requires a dict of the shape `parse_qs` returns, with non-empty value lists. That is the only input `apply_theme` gives it.
- `Theme.ApplyTheme` states only the range of the result. What it reads back is stated by `Theme.ApplyThemeEncoded`, `Theme.ThemeRoundTrip` and `Theme.ApplyThemeEmpty`.

## Findings

| source | as written | input that shows it | evidently intended | confidence | as-written member | corrected member |
|---|---|---|---|---|---|---|
| app.py:173-183 | `href.partition("?")` splits at the first `?` and ignores a `#` fragment. For an href with a fragment and no query, the new `?theme=...` lands inside the fragment, where the browser's `search` does not see it, so `apply_theme` reads back `light`. For an href with a query and a fragment, the fragment is parsed into the last query value and is lost. | `reload_with_theme("dark", "p#f")` returns `p#f?theme=dark`; its search is empty, so the page comes back light. `reload_with_theme("dark", "p?a=1#f")` returns `p?a=1%23f&theme=dark`: the fragment is dropped, and `a`, read as `1` before, is read as `1#f` after | set the fragment aside, put the themed query before it: `p?theme=dark#f` and `p?a=1&theme=dark#f` | not executed; medium (Dash may pass an href without its fragment) | `Theme.NewHrefAsWritten`, `Theme.FragmentLosesTheme`, `Theme.FragmentExample`, `Theme.FragmentJoinsValue` | `Theme.NewHref`, `Theme.NewHrefParts`, `Theme.ThemeRoundTrip`, `Dashboard.App.ReloadWithTheme` |
