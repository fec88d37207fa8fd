# webcam-cloud: the batching, reconciliation and dashboard logic in Dafny

This project models the sequential logic that sits under the AWS and Dash glue of
webcam-cloud, and proves what that logic promises. It covers three parts.

- **The batch accumulator** (`modules/lambda1.py`). Each queued S3 notification
  appends its frame key to the single pending-batch record. When the list that
  comes back holds exactly `BATCH_SIZE` (4) keys, it is sent to the batch runner
  and the record is reset to `[]`. The record and the invocation log are the
  fields of the class `BatchAccumulator.Accumulator`. The pure step `AppendKey`
  and its iteration `AppendAll` are what the counting and partition lemmas are
  about.
- **The reconciler** (`modules/lambda2.py`, `feed_db_with_preds` and its helpers).
  It normalises the prefix and groups the listed keys by filename stem into a
  detections sidecar (`.out`) and a frame (`.jpg`). It derives the timestamp key
  from the stem with `get_filename`. Then it writes one statistics row per allowed
  detection category (`proc_json`) and one `whole_image` row per frame
  (`proc_jpeg`). The statistics table is the class `Reconciler.StatsTable`: a map
  keyed by (id, category_name), where `put_item` overwrites. The grouping loop and
  the write loop are methods with loop invariants, proved against the functions
  `GroupKeys`, `EntryPass`, `Chain` and `Reconcile`. The pass runs `proc_json`
  as written, so a sidecar with no detections stops it (see "## Findings"); for
  every other sidecar it writes the rows of the corrected `JsonRows`.
- **The dashboard helpers**. These are `dash_app/dash_utils.py` (theme lookup,
  colour mapping, the timestamp of a frame key, the place-name extractor) and the
  non-UI parts of `dash_app/app.py`:
  - the `.jpg` listing, its filter and its sort;
  - the category and count-0 fill logic of `fetch_data`;
  - the frame table;
  - the selection guard;
  - the bounding-box loop with its coordinate flip.

  `app.py` carries its own copies of `get_theme_name`, `generate_color_mapping` and
  `extract_timestamp_from_key` (`dash_app/app.py:34-38`, `460-477`). They are
  identical to the ones in `dash_utils.py`, so one definition models both.

Shared modules:
- `Common`: Option and Result, plus the string operations the source calls.
- `DateTimeFormat`: calendar validity, and the `%Y-%m-%d<sep>%H:%M:%S` text form with its parse.
- `Sorting`: `list.sort(key=...)` as an insertion-sort method, and pandas' `sort_values` as the
  function `Ordered` that the method is proved to compute.

The external stores are values:
- an S3 listing is a sequence of keys, or of (key, LastModified) pairs;
- object contents are a map from key to decoded body;
- a DynamoDB scan is a sequence of rows;
- failures are `Result` values.

The timestamp text is the one the frame grabber writes (`image_%Y-%m-%d_%H:%M:%S.jpg`,
`modules/grabber.py:64-65`). `Reconciler.GetFilenameRoundTrip` and
`DashUtils.ExtractTimestampRoundTrip` prove that both readers give that timestamp back.

## Model

| member | source | states |
|---|---|---|
| BatchAccumulator.AppendKey | modules/lambda1.py:24-44 | the key goes to the end of the stored list; a flush happens iff the post-append length is exactly the batch size; its payload is the whole post-append list and the list becomes `[]`; otherwise the list is the post-append list; a list shorter than the batch size stays shorter |
| BatchAccumulator.AppendAllPartition | modules/lambda1.py:17-44 | over any run of keys, the payloads sent, concatenated in order, followed by what stays pending, equal the starting list followed by the keys: nothing is lost, duplicated or reordered |
| BatchAccumulator.AppendAllCounts | modules/lambda1.py:35-44 | from an empty record, payloads × size + pending length = number of keys, and fewer than `size` keys stay pending |
| BatchAccumulator.BatchCounts | modules/lambda1.py:9-44 | with `BATCH_SIZE` 4, N keys from empty give N div 4 invocations and leave exactly the last N mod 4 keys stored |
| BatchAccumulator.PayloadsAreFull | modules/lambda1.py:35-44 | from a record shorter than the batch size, every payload has exactly batch-size keys and the record stays shorter |
| BatchAccumulator.OverfullNeverFlushes | modules/lambda1.py:35 | a record already longer than the batch size never flushes again; it only grows by the keys appended |
| BatchAccumulator.HandleFrom | modules/lambda1.py:17-46 | the handler succeeds with status 200 iff every record's key can be read; otherwise it fails with `MalformedRecord(k)` for the first record k whose key cannot be read |
| BatchAccumulator.HandleFromIsAppendAll | modules/lambda1.py:17-44 | when every record parses, the handler's effect is the keys appended one by one in event order |
| BatchAccumulator.HandleFromStopsAt | modules/lambda1.py:17-46 | when record k is the first whose key cannot be read, the handler fails naming k, and the payloads sent and the list left pending are those of appending the keys before k in order |
| BatchAccumulator.Accumulator.constructor | modules/lambda1.py:26 | before the first write the record has no `images` attribute (read as `[]`) and nothing has been invoked |
| BatchAccumulator.Accumulator.AppendAndMaybeFlush | modules/lambda1.py:24-44 | one record: append, check the post-append list, invoke with the whole list and reset to `[]` when it is full; otherwise store the post-append list and invoke nothing |
| BatchAccumulator.Accumulator.LambdaHandler | modules/lambda1.py:15-46 | the records in event order; the result, the stored list and the invocation log are those of `HandleFrom`, so the first unreadable record k ends the call with `MalformedRecord(k)` after the records before it took effect |
| Common.Strip | modules/lambda2.py:112 | `strip("/")`: empty iff the input is all `/`; otherwise a slice of the input with no `/` at either end, whose removed ends are all `/` |
| Common.AfterLastChar | modules/lambda2.py:119 | `os.path.basename`: a suffix of the key with no `/`, preceded by a `/` unless it is the whole key |
| Common.BeforeFirstChar | modules/lambda2.py:119 | `split(".")[0]`: a prefix with no `.`, followed by a `.` unless it is the whole text |
| Common.AfterLast | dash_app/dash_utils.py:42 | `split("image_")[-1]`: a suffix with no occurrence of `image_` at or after its start, preceded by `image_` unless it is the whole key |
| Common.BeforeFirst | dash_app/dash_utils.py:42 | `split(".jpg")[0]`: a prefix containing no `.jpg`, followed by `.jpg` unless it is the whole text |
| DateTimeFormat.Parse | modules/lambda2.py:47 | `strptime` with `%Y-%m-%d_%H:%M:%S` succeeds only with a date-time the `datetime` constructor accepts |
| DateTimeFormat.FormatShape | modules/lambda2.py:47 | `isoformat(sep=...)` gives the fixed 19-character layout whose fields read back as the date-time |
| DateTimeFormat.ParseFormat | modules/lambda2.py:47 | parsing the formatted text of a valid date-time gives it back |
| DateTimeFormat.FormatParse | modules/lambda2.py:47 | text that parses is the formatting of its date-time, so `strptime(...).isoformat(sep="_")` returns the matched text unchanged |
| DateTimeFormat.InstantOrder | dash_app/app.py:508 | on valid date-times the integer sort key orders exactly as Python compares datetimes, and equal keys mean equal date-times |
| Sorting.SortBy | dash_app/app.py:118 | the result is `Ordered(s, key)`: sorted ascending by the key and a permutation of the input |
| Sorting.InsertSorted | dash_app/app.py:118 | one insertion: the element placed after every leading element with a key at most its own; the result stays sorted and gains exactly that element |
| Sorting.OrderedSpec | dash_app/app.py:164 | the sorted copy is sorted ascending by the key and a permutation of the input |
| Reconciler.FirstMatchFrom | modules/lambda2.py:44 | `re.search` finds the leftmost position where `image_` is followed by the `\d{4}-\d{2}-\d{2}_\d{2}:\d{2}:\d{2}` layout, or reports that there is none |
| Reconciler.FirstMatchFound | modules/lambda2.py:44 | the leftmost match is unique: the search lands on it |
| Reconciler.GetFilename | modules/lambda2.py:42-50 | a returned key always parses as a date-time; the only errors are "datetime not found" for the name and an invalid date-time text |
| Reconciler.GetFilenameNotFound | modules/lambda2.py:44-49 | "Datetime not found" is raised iff no position of the name matches the pattern |
| Reconciler.GetFilenameSpec | modules/lambda2.py:44-47 | success iff the leftmost match holds a valid date-time, and the result is then the matched text unchanged |
| Reconciler.GetFilenameAt | modules/lambda2.py:44-49 | given the leftmost match, the call returns its text when it parses and raises on that text otherwise; a later valid match is never tried |
| Reconciler.GetFilenameRoundTrip | modules/lambda2.py:42-50 | a name containing `image_` + fmt(t) for a valid t, with no match before it, gives back fmt(t) |
| Reconciler.NormalizePrefix | modules/lambda2.py:112-113 | `""` iff the prefix is empty or all `/`; otherwise no leading `/`, exactly one trailing `/`, and the core is the prefix with its outer slashes removed |
| Reconciler.NormalizePrefixIdempotent | modules/lambda2.py:112-113 | normalising twice equals normalising once |
| Reconciler.FrameAndSidecarPair | modules/lambda2.py:119-127 | for a stem s with no `.` or `/`, `<dir>s.jpg` and `<dir>s.jpg.out` both group under s, as the frame and as the sidecar (`.out` tested first) |
| Reconciler.KindOfSuffix | modules/lambda2.py:124-127 | a key ending `.jpg.out` fills the sidecar slot and one ending `.jpg` fills the frame slot |
| Reconciler.StemOf | modules/lambda2.py:119 | the stem of `<dir><s><ext>` is s when ext starts with `.` |
| Reconciler.BasenameUnderDir | modules/lambda2.py:119 | below a directory prefix the basename is the rest of the key |
| Reconciler.LastOfKind | modules/lambda2.py:124-127 | the key found for an entry slot is listed, with that stem and of that kind; none is found iff no such key is listed |
| Reconciler.LastOfKindIsLast | modules/lambda2.py:116-127 | no key listed after the one found has the same stem and kind: the slot holds the last such key, as repeated assignment to the dict entry leaves it |
| Reconciler.GroupKeysDomain | modules/lambda2.py:116-122 | every listed key creates or keeps an entry under its stem, and only stems of listed keys have entries |
| Reconciler.GroupKeysOrder | modules/lambda2.py:116-122 | the dict's insertion order lists each stem with an entry exactly once |
| Reconciler.GroupKeysEntries | modules/lambda2.py:116-127 | each entry holds the last sidecar and the last frame listed for its stem; keys of neither kind leave both slots unchanged |
| Reconciler.GroupListing | modules/lambda2.py:116-127 | the in-place grouping loop builds exactly `GroupKeys` of the listing |
| Reconciler.CountOf | modules/lambda2.py:65-66 | the group size is at most the number of detections, and positive iff some detection carries the name |
| Reconciler.RowsForSpec | modules/lambda2.py:65-77 | every row written is the aggregate of a group that occurs, keyed by the timestamp, with count = number of detections of that name; every occurring name gets a row |
| Reconciler.RowsForDistinct | modules/lambda2.py:69-80 | with each group visited once, no two rows written share a (id, category_name) key |
| Reconciler.JsonRowsSpec | modules/lambda2.py:60-80 | exactly one row per allowed category that occurs, count = number of its detections and positive, no row for a category outside the allow-list, keys distinct |
| Reconciler.AllowedInGroupOrder | modules/lambda2.py:28-35 | the sorted group order visits exactly the allowed categories, each once |
| Reconciler.ProcJsonAsWritten | modules/lambda2.py:64-67 | the code as written raises iff the detection list is empty, and otherwise writes the intended rows |
| Reconciler.EmptySidecarRaisesAsWritten | modules/lambda2.py:64-67 | an empty sidecar makes the code as written raise, where the intended behaviour writes no rows |
| Reconciler.ApplyPutsOverride | modules/lambda2.py:80 | a sequence of `put_item`s leaves the old table overridden by the last row written under each key |
| Reconciler.ApplyPutsIdempotent | modules/lambda2.py:80 | writing the same rows twice leaves the table as writing them once |
| Reconciler.StatsTable.constructor | modules/lambda2.py:39 | the table starts with the existing rows and no writes |
| Reconciler.StatsTable.PutItem | modules/lambda2.py:80 | `put_item` replaces the row with the same (id, category_name) and changes nothing else |
| Reconciler.ProcJson | modules/lambda2.py:60-80 | the rows written and the new table are exactly those of `JsonRows`, in group order |
| Reconciler.PutGroups | modules/lambda2.py:69-80 | the loop over group names writes each occurring group's row in order |
| Reconciler.PutGroup | modules/lambda2.py:70-80 | one iteration writes the group's row when the group occurs |
| Reconciler.ProcJpeg | modules/lambda2.py:91-104 | exactly one row, `whole_image` under the timestamp key |
| Reconciler.EntryPass | modules/lambda2.py:129-138 | an entry whose stem has no valid timestamp writes nothing and raises that error |
| Reconciler.EmptySidecarStopsEntry | modules/lambda2.py:129-138 | an entry whose sidecar holds no detections writes nothing, not even its frame's row, and stops the pass with the `KeyError` that `proc_json` as written raises |
| Reconciler.EntryPassShape | modules/lambda2.py:129-138 | all of an entry's rows carry its timestamp key; category rows come first; a frame that loaded gives one `whole_image` row, written last |
| Reconciler.ChainFailure | modules/lambda2.py:129-138 | the pass raises iff one of its entries raises |
| Reconciler.ChainCompletes | modules/lambda2.py:129-138 | a pass with no failure writes every entry's rows in insertion order |
| Reconciler.ChainStopsAtFirstFailure | modules/lambda2.py:129-138 | the pass stops at the first failing entry: earlier writes and that entry's own partial writes stay, and no later entry is written |
| Reconciler.EntryPasses | modules/lambda2.py:129 | one outcome per stem, in insertion order |
| Reconciler.ListUnder | modules/lambda2.py:114-117 | the listing under a prefix holds exactly the bucket keys that start with it |
| Reconciler.ListedGrouping | modules/lambda2.py:112-127 | every stem in the insertion order has an entry |
| Reconciler.CompletedPassHasTimestamps | modules/lambda2.py:119-130 | a pass that completes implies that every key listed under the prefix has a stem with a valid timestamp |
| Reconciler.ReconcileIdempotent | modules/lambda2.py:107-138 | re-running the pass over an unchanged bucket leaves the table as the first run left it |
| Reconciler.ProcessEntry | modules/lambda2.py:130-138 | one iteration: the writes, the new table and the raised error are those of `EntryPass` |
| Reconciler.ProcessSidecar | modules/lambda2.py:132-134 | the sidecar half: load, then `proc_json` as written: the load error, the `KeyError` on an empty detection list, or the rows of `JsonRows` |
| Reconciler.ProcessEntryAt | modules/lambda2.py:129-138 | the i-th iteration of the second loop |
| Reconciler.ProcessEntries | modules/lambda2.py:129-138 | the second loop writes exactly what `Chain` of the entry outcomes writes, and raises its failure |
| Reconciler.FeedDbWithPreds | modules/lambda2.py:107-138 | the whole pass: the writes, the final table and the raised error are those of `Reconcile` over the listing and contents |
| DashUtils.GetThemeName | dash_app/dash_utils.py:20-24 | `None` iff no URL matches; otherwise the name of the first entry, in map order, whose URL matches |
| DashUtils.ColorMapping | dash_app/dash_utils.py:32-35 | the mapping's keys are exactly the input categories |
| DashUtils.ColorOfLastPosition | dash_app/dash_utils.py:32-35 | a category gets the palette colour of its last position in the list |
| DashUtils.ColorsFromPalette | dash_app/dash_utils.py:32-35 | every colour handed out comes from the palette |
| DashUtils.DistinctCategoriesCycle | dash_app/dash_utils.py:32-35 | with distinct categories, position i gets `palette[i % len(palette)]` |
| DashUtils.ToTimestamp | dash_app/dash_utils.py:43 | a converted text gives a valid date-time inside pandas' `Timestamp` range |
| DashUtils.ToTimestampCanonical | dash_app/dash_utils.py:43 | text that converts is the canonical text of its timestamp |
| DashUtils.NatStringsDoNotConvert | dash_app/dash_utils.py:43 | no text that pandas reads as `NaT` converts to a date-time |
| DashUtils.ExtractTimestampSpec | dash_app/dash_utils.py:39-45 | never raises; `NaT` iff the extracted text is empty or a spelling of NaT/NaN; `datetime.min` iff it is any other text that does not convert; otherwise the result formats back to that text |
| DashUtils.AfterLastImage | dash_app/dash_utils.py:42 | the text after the last `image_` of `<dir>image_<tail>` is tail when tail has no `i` |
| DashUtils.BeforeFirstJpg | dash_app/dash_utils.py:42 | the text before the first `.jpg` of `<text>.jpg<rest>` is text when text has no `.` |
| DashUtils.ExtractTimestampRoundTrip | dash_app/dash_utils.py:39-45 | a frame key `<dir>image_<fmt(t)>.jpg` gives back t for every representable t |
| DashUtils.WordAt | dash_app/dash_utils.py:50 | `[A-Z][a-z]+` at a position: an uppercase letter, then the whole lowercase run of at least one letter |
| DashUtils.ChainEnd | dash_app/dash_utils.py:50 | the repetition ends at or after the current word, or backtracks to the previous word end |
| DashUtils.MatchAt | dash_app/dash_utils.py:50 | a match at a position spans at least two characters and stays in the text |
| DashUtils.ChainEndSpan | dash_app/dash_utils.py:50 | where the repetition ends, the span is well shaped and followed by `\b` |
| DashUtils.MatchAtSpan | dash_app/dash_utils.py:50 | a match starts at `\b`, ends at `\b`, and spells one or more capitalised words separated by whitespace |
| DashUtils.FindAllSound | dash_app/dash_utils.py:50 | every span `findall` reports is a match of the whole pattern at its start |
| DashUtils.FindAllOrdered | dash_app/dash_utils.py:50 | the spans come in text order and do not overlap |
| DashUtils.FindAllComplete | dash_app/dash_utils.py:50 | no match is missed: every position that starts a match lies inside a reported span |
| DashUtils.ExtractTownSpec | dash_app/dash_utils.py:48-50 | each extracted item is one or more `[A-Z][a-z]+` words separated by whitespace, with none at either end |
| DashApp.JpegObjectsCount | dash_app/app.py:103-109 | the kept objects are exactly the listed ones whose key does not end in `/` and whose lower-cased key ends in `.jpg`, each as often as listed |
| DashApp.SortedJpegs | dash_app/app.py:101-118 | the filter loop then the sort: a permutation of the kept objects, ascending by LastModified |
| DashApp.ListImagesAsWritten | dash_app/app.py:88-145 | as written: any listing failure escapes as `AttributeError`; on success the sorted `.jpg` objects |
| DashApp.ListImages | dash_app/app.py:88-145 | as intended: the sorted `.jpg` objects, and `[]` on any failure |
| DashApp.FrameTime | dash_app/app.py:471-477 | the timestamp of a frame key is `NaT` or a valid date-time (the sentinel included) |
| DashApp.TimestampLabelReadsBack | dash_app/app.py:513-518 | the cell is "Invalid Timestamp" iff the timestamp is the sentinel; any other cell parses back to its timestamp |
| DashApp.Cell | dash_app/app.py:513-518 | formatting a frame's cell raises (no cell) iff its timestamp is `NaT` |
| DashApp.AppendEach | dash_app/app.py:511-519 | the appending loop completes iff no item raises, and then gives one output per item, in order |
| DashApp.TableCells | dash_app/app.py:511-519 | one cell per stored image, in order, each that image's label; `ValueError` iff some stored frame's timestamp is `NaT` |
| DashApp.BuildTable | dash_app/app.py:493-527 | empty list: no store, the "No images found" row, no selection; `ValueError` iff some listed frame's timestamp is `NaT`; otherwise the store is the stable sort newest first (a sorted permutation), one cell per image, and row 0 selected |
| DashApp.StoredFramesHaveTimes | dash_app/app.py:508-519 | sorting the list neither hides nor adds a frame whose timestamp is `NaT` |
| DashApp.SelectImage | dash_app/app.py:549-558 | an image is selected iff the list is non-empty, some row is selected and `0 <= selected_rows[0] < len`; it is then the image at that index |
| DashApp.DefaultSelectionIsNewest | dash_app/app.py:508-525 | when no frame is `NaT`, the default selection of a built table is a frame no stored frame is later than |
| DashApp.SidecarKeyPairsWithFrame | dash_app/app.py:601 | the sidecar the dashboard reads for a frame is the object the reconciler pairs with that frame |
| DashApp.ReadableSpec | dash_app/app.py:159-163 | a row survives `dropna` iff its id converts to a timestamp |
| DashApp.TimeOrderedSpec | dash_app/app.py:159-164 | the frame after `dropna` and `sort_values` holds exactly the rows with a readable timestamp, oldest first |
| DashApp.UniqueCategories | dash_app/app.py:173-180 | the distinct list has no duplicates and no `whole_image` |
| DashApp.UniqueCategoriesSpec | dash_app/app.py:173-180 | a name is listed iff it occurs and is not `whole_image` |
| DashApp.UniqueCategoriesOrder | dash_app/app.py:173-180 | the list is in order of first appearance: an earlier category occurs before every occurrence of a later one |
| DashApp.DistinctCategories | dash_app/app.py:159-180 | the categories `fetch_data` reports, first appearances in the frame sorted by timestamp, have no duplicates and no `whole_image` |
| DashApp.DistinctCategoriesSpec | dash_app/app.py:159-180 | a category is reported iff some row with a readable timestamp carries it and it is not `whole_image` |
| DashApp.DistinctCategoriesByTime | dash_app/app.py:159-180 | categories are reported by earliest timestamp: each has a readable row no later than every readable row of any category reported after it |
| DashApp.StoredCountSpec | dash_app/app.py:194-199 | with distinct keys, the filled count is the count of the one row keyed (t, c), and 0 when there is none |
| DashApp.FetchDataSpec | dash_app/app.py:183-205 | every pair of a `whole_image` timestamp and a reported category (or `whole_image`) has a row, and no other pair; counts are the stored ones or 0; `whole_image` rows have none |
| DashApp.OrphanRowsDropped | dash_app/app.py:185-205 | a row at a timestamp with no `whole_image` row leaves no trace in the frame |
| DashApp.NoCountColumnEmpty | dash_app/app.py:197-210 | when no item has a `count`, the fill raises and `fetch_data` returns an empty frame and no categories |
| DashApp.PlotRectInverse | dash_app/app.py:653-662 | the y-flip loses nothing: the pixel box is recovered from the rectangle, and non-negative sizes give x0 <= x1 and y0 <= y1 |
| DashApp.PlotRectInside | dash_app/app.py:653-662 | a box inside the image gives a rectangle inside the unit square |
| DashApp.BoxShapesSpec | dash_app/app.py:641-675 | every rectangle drawn carries an allowed label, that label's colour ("red" when unmapped), and comes from a box of the sidecar; no more rectangles than boxes |
| DashApp.AllowedBoxDrawn | dash_app/app.py:643-650 | every box whose label (or "unknown") is allowed is drawn |
| DashApp.DrawBoxes | dash_app/app.py:641-675 | the loop draws exactly `BoxShapes` of the boxes, in sidecar order |
| DashApp.UpdateWebcamGraph | dash_app/app.py:549-711 | the fallback view iff the selection guard fails; otherwise the selected key, the sidecar boxes with the image size in the store (no size after a load exception), and the rectangles of the allowed boxes |

## Left out

- boto3 I/O: S3 listing and pagination, `get_object`, DynamoDB `update_item`, `put_item` and `scan`, and Lambda `invoke`. These are sequences, maps and logs passed in or kept as fields.
- Concurrency in `modules/lambda1.py`: the model runs invocations one after another. The race between the atomic append and the unconditional reset across concurrent invocations is not modelled.
- Logging and `print` calls: they have no effect on state.
- Floating point: the `mean_area`, `mean_score` and `mean_brightness` values and their `Decimal(str(...))` conversion. A category row keeps the exact `real` totals of its group (its means are `MeanArea` and `MeanScore`). The brightness of a frame is an opaque `real` in its decoded body.
- JPEG and JSON decoding (PIL, numpy, `json.loads`): an object body is already decoded, or marked undecodable.
- `mv_files_to_bucket` and the file moves of `lambda_handler` in `modules/lambda2.py:141-161`: `mv_files_to_bucket` is not part of this model.
- `modules/constants.py` is not part of this model. The dashboard's allow-list is a parameter (`allowed`) of `DashApp.DrawBoxes` and `DashApp.UpdateWebcamGraph`.
- The theme map of `get_theme_name` is a parameter, since it comes from `dash_bootstrap_components`. Plotly's `Set1` palette is written out as a constant.
- Dash layout, callback wiring, Plotly figures, annotations and image re-encoding in `dash_app/app.py`, including the charts of `update_graphs` (725-861). A figure is reduced to the rectangles it draws.
- Geocoding and time-zone lookup (`dash_app/dash_utils.py:53-86`) and `get_youtube_info`: these are network calls.
- Loading the selected frame in `update_webcam_graph_and_data` (`load_jpeg_from_s3`, outside the `try`) is the total function `frameSize`, so its failure is not modelled.
- A sidecar record without `bbox` (a `KeyError` in the box loop) is not modelled: every box has its four coordinates.
- `DashApp.FetchData`: rows are a map keyed by (timestamp, category), so the row order of the returned frame is not modelled; the order of the categories is (`DashApp.DistinctCategoriesByTime`). Neither are the numeric coercion of the other columns or the `reindex` error on duplicate (timestamp, category) keys. A scanned table has distinct keys, because DynamoDB keys rows by (id, category_name) and two ids that convert to the same timestamp are equal (`DashUtils.ToTimestampCanonical`).
- `DashUtils.ToTimestamp`: accepts only the zero-padded 19-character text. pandas with this format also accepts some unpadded fields, so a key with such a field yields `datetime.min` in the model.
- `DashUtils.ToTimestamp`, `Reconciler.GetFilename`: `\d` and digits are ASCII only, while Python's `re` and `strptime` also accept other Unicode decimal digits.
- `DashUtils.MatchAt`: `[A-Z]`, `[a-z]` and `\s` are their ASCII classes (plus the ASCII separators `\x1c`-`\x1f` for `\s`). For `\w` in `\b`, every character above 127 counts as a word character, which approximates Python's Unicode `\w`.
- `Sorting.SortBy`: the result is `Sorting.Ordered`, which keeps equal keys in input order by construction, as `list.sort` does, but no lemma states stability on its own.
- `DashApp.TimeOrdered`: rows with equal timestamps keep their scan order. pandas' default `quicksort` for `sort_values` is not stable, so when the earliest rows of two categories share a timestamp, pandas may report them in the other order. `DashApp.DistinctCategoriesByTime` compares timestamps with `<=`, so it does not depend on that order.
- `DashUtils.ExtractTimestampFromKey`: the texts read as `NaT` (`DashUtils.NAT_STRINGS`: the empty string, "NaT", "nat", "NAT", "nan", "NaN", "NAN") are those of pandas 2; other pandas versions may differ.
- `DashApp.NewestFirstKey`: every comparison with `NaT` is false, so the order `list.sort` gives a list holding a `NaT` frame is not determined; the key uses 0 for such a frame, and the callback raises on that list whatever its order.
- The `NaT` handling in `update_graphs` (`dash_app/app.py:740-746`) is part of the chart callback, which is not modelled.
- `DashApp.S3Object`: `LastModified` is an integer instant in seconds. The comparison between a pandas `Timestamp` and `datetime.min` in the table sort is taken to order the sentinel oldest.

## Findings

| source | as written | input that shows it | evidently intended | confidence | as-written member | corrected member |
|---|---|---|---|---|---|---|
| modules/lambda2.py:64-67 | `pd.DataFrame(metadata).groupby("category_name")` on an empty detection list: the frame has no `category_name` column, so `groupby` raises `KeyError` and the whole pass aborts | a sidecar whose content is `[]` (a frame with no detections) | a frame with no detections writes no category rows, and the pass goes on | not executed | Reconciler.ProcJsonAsWritten, Reconciler.EmptySidecarRaisesAsWritten, Reconciler.EmptySidecarStopsEntry | Reconciler.JsonRows, Reconciler.JsonRowsSpec, Reconciler.ProcJson |
| dash_app/app.py:129 | `except boto3.exceptions.ClientError`: the module `boto3.exceptions` defines no `ClientError`, so when listing raises, evaluating this clause raises `AttributeError`, which leaves the function before `except Exception` is consulted | any listing failure, e.g. a missing bucket or denied access | any failure yields `[]` | not executed | DashApp.ListImagesAsWritten | DashApp.ListImages |
