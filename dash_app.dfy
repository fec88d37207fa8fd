/** The non-UI logic of `dash_app/app.py`: listing the processed frames, reading
    and filling the statistics table, building the frame table, guarding the
    row selection, and turning the detections of the selected frame into
    plot rectangles. S3 listings and DynamoDB scans arrive as values; figures
    are reduced to the rectangles they draw. */
module DashApp {
  import opened Common
  import opened DateTimeFormat
  import opened Sorting
  import opened DashUtils
  import opened Reconciler

  // ---------------------------------------------------------------------
  // get_s3_image_keys_and_timestamps
  // ---------------------------------------------------------------------

  /** One listed object: its key and its `LastModified` time, as an instant in
      seconds. */
  datatype S3Object = S3Object(key: string, lastModified: int)

  /** Why a listing could not be completed: a service error with its code, or
      any other exception. */
  datatype ListingFailure = ClientError(code: string) | OtherFailure

  /** An exception that leaves the function. */
  datatype Raised = AttributeError(name: string) | ValueError(message: string)

  function LowerChar(c: char): char {
    if 'A' <= c <= 'Z' then (c as int + 32) as char else c
  }

  /** `str.lower()` on ASCII letters. */
  function Lower(s: string): string {
    seq(|s|, k requires 0 <= k < |s| => LowerChar(s[k]))
  }

  /** The filter of the listing loop: not a folder marker, and `.jpg` in any
      letter case. */
  predicate IsJpegKey(key: string) {
    !EndsWith(key, "/") && EndsWith(Lower(key), ".jpg")
  }

  /** The listed objects the loop keeps, in listing order. */
  function JpegObjects(objects: seq<S3Object>): seq<S3Object> {
    if objects == [] then []
    else
      var n := |objects| - 1;
      JpegObjects(objects[..n]) + (if IsJpegKey(objects[n].key) then [objects[n]] else [])
  }

  /** The kept objects are exactly the listed ones with a `.jpg` key, each as
      often as it was listed. */
  lemma {:induction false} JpegObjectsCount(objects: seq<S3Object>, o: S3Object)
    ensures multiset(JpegObjects(objects))[o] == if IsJpegKey(o.key) then multiset(objects)[o] else 0
    decreases |objects|
  {
    if objects != [] {
      var n := |objects| - 1;
      JpegObjectsCount(objects[..n], o);
      assert objects == objects[..n] + [objects[n]];
    }
  }

  /** The sort key of `image_data.sort(key=lambda x: x["last_modified"])`. */
  function LastModifiedKey(o: S3Object): int {
    o.lastModified
  }

  /** The body of the `try`: filter the listing, then sort oldest first. */
  method SortedJpegs(objects: seq<S3Object>) returns (images: seq<S3Object>)
    ensures multiset(images) == multiset(JpegObjects(objects))
    ensures SortedBy(images, LastModifiedKey)
  {
    var found: seq<S3Object> := [];
    for i := 0 to |objects|
      invariant found == JpegObjects(objects[..i])
    {
      assert objects[..i + 1][..i] == objects[..i];
      if IsJpegKey(objects[i].key) {
        found := found + [objects[i]];
      }
    }
    assert objects[..|objects|] == objects;
    images := SortBy(found, LastModifiedKey);
  }

  /** `get_s3_image_keys_and_timestamps` as written: when listing fails, the
      clause `except boto3.exceptions.ClientError` is evaluated, the module
      `boto3.exceptions` has no `ClientError`, and the resulting
      `AttributeError` leaves the function before `except Exception` is
      consulted. */
  method ListImagesAsWritten(listing: Result<seq<S3Object>, ListingFailure>)
    returns (r: Result<seq<S3Object>, Raised>)
    ensures listing.Err? ==> r == Err(AttributeError("ClientError"))
    ensures listing.Ok? ==> r.Ok? && SortedBy(r.value, LastModifiedKey)
                            && multiset(r.value) == multiset(JpegObjects(listing.value))
  {
    match listing {
      case Err(_) =>
        r := Err(AttributeError("ClientError"));
      case Ok(objects) =>
        var images := SortedJpegs(objects);
        r := Ok(images);
    }
  }

  /** `get_s3_image_keys_and_timestamps` as intended: the `.jpg` objects oldest
      first, and `[]` whenever listing fails, whatever the error. */
  method ListImages(listing: Result<seq<S3Object>, ListingFailure>) returns (images: seq<S3Object>)
    ensures listing.Err? ==> images == []
    ensures listing.Ok? ==> SortedBy(images, LastModifiedKey)
                            && multiset(images) == multiset(JpegObjects(listing.value))
  {
    match listing {
      case Err(_) =>
        images := [];
      case Ok(objects) =>
        images := SortedJpegs(objects);
    }
  }

  // ---------------------------------------------------------------------
  // update_image_list_and_table
  // ---------------------------------------------------------------------

  const NO_IMAGES_FOUND := "No images found"
  const INVALID_TIMESTAMP := "Invalid Timestamp"

  /** The message of the `ValueError` that `NaT.strftime` raises. */
  const NAT_STRFTIME := "NaTType does not support strftime"

  /** The timestamp of a frame key: `datetime.min` when it has none, `NaT`
      when its text names no time. */
  function FrameTime(o: S3Object): (t: FrameStamp)
    ensures t.Stamp? ==> Valid(t.t)
  {
    ExtractTimestampSpec(o.key);
    ExtractTimestampFromKey(o.key)
  }

  /** Sort key for `sort(key=extract_timestamp_from_key, reverse=True)`:
      ascending in this key is newest first. Every comparison with `NaT` is
      false, so where a frame has `NaT` the order `list.sort` produces is not
      determined; the table loop then raises, so 0 stands in for it. */
  function NewestFirstKey(o: S3Object): int {
    match FrameTime(o)
    case Stamp(t) => -Instant(t)
    case NotATime => 0
  }

  /** The table cell of a frame: `%Y-%m-%d %H:%M:%S`, or the invalid marker
      for the sentinel. */
  function TimestampLabel(t: DateTime): string
    requires Valid(t)
  {
    if t == MIN_DATETIME then INVALID_TIMESTAMP else Format(t, ' ')
  }

  /** A cell other than the marker reads back as its timestamp, and the marker
      never reads as one, so cells tell valid and invalid frames apart. */
  lemma TimestampLabelReadsBack(t: DateTime)
    requires Valid(t)
    ensures TimestampLabel(t) == INVALID_TIMESTAMP <==> t == MIN_DATETIME
    ensures t != MIN_DATETIME ==> Parse(TimestampLabel(t), ' ') == Some(t)
  {
    if t != MIN_DATETIME {
      ParseFormat(t, ' ');
      assert |TimestampLabel(t)| == 19;
    }
  }

  /** The cell of one stored frame; `None` where the frame's time is `NaT`,
      which differs from `datetime.min` and whose `strftime` raises. */
  function Cell(o: S3Object): (c: Option<string>)
    ensures c.None? <==> FrameTime(o).NotATime?
  {
    match FrameTime(o)
    case Stamp(t) => Some(TimestampLabel(t))
    case NotATime => None
  }

  /** The loop filling `table_data`: one cell per stored image, in order; the
      first frame whose time is `NaT` stops it with `ValueError`. */
  method TableCells(store: seq<S3Object>) returns (r: Result<seq<string>, Raised>)
    ensures r.Ok? <==> forall i :: 0 <= i < |store| ==> Cell(store[i]).Some?
    ensures r.Ok? ==> |r.value| == |store| && forall i :: 0 <= i < |store| ==> Cell(store[i]) == Some(r.value[i])
    ensures r.Err? ==> r.error == ValueError(NAT_STRFTIME)
  {
    var cells := AppendEach(store, Cell);
    if cells.None? {
      return Err(ValueError(NAT_STRFTIME));
    }
    return Ok(cells.value);
  }

  /** `for item in items: out.append(f(item))`, where `f` may raise (`None`):
      the first raising item ends the loop. */
  method AppendEach(items: seq<S3Object>, f: S3Object -> Option<string>) returns (out: Option<seq<string>>)
    ensures out.Some? <==> forall i :: 0 <= i < |items| ==> f(items[i]).Some?
    ensures out.Some? ==> |out.value| == |items| && forall i :: 0 <= i < |items| ==> f(items[i]) == Some(out.value[i])
  {
    var done := [];
    for i := 0 to |items|
      invariant |done| == i
      invariant forall j :: 0 <= j < i ==> f(items[j]) == Some(done[j])
    {
      var c := f(items[i]);
      if c.None? {
        return None;
      }
      done := done + [c.value];
    }
    return Some(done);
  }

  /** What the callback returns: the stored image list, the table cells and
      the selected rows. */
  datatype TableOutputs = TableOutputs(store: seq<S3Object>, cells: seq<string>, selected: seq<nat>)

  /** `update_image_list_and_table`: the stored image list newest first, one
      table cell per image, and the first row selected; for an empty list the
      placeholder row and no selection; and `ValueError` when some frame's
      time is `NaT`. */
  method BuildTable(images: seq<S3Object>) returns (r: Result<TableOutputs, Raised>)
    ensures images == [] ==> r == Ok(TableOutputs([], [NO_IMAGES_FOUND], []))
    ensures r.Err? <==> exists o :: o in images && FrameTime(o).NotATime?
    ensures r.Err? ==> r.error == ValueError(NAT_STRFTIME)
    ensures images != [] && r.Ok? ==>
              var out := r.value;
              && out.store == Ordered(images, NewestFirstKey)
              && multiset(out.store) == multiset(images) && SortedBy(out.store, NewestFirstKey)
              && |out.cells| == |out.store| && out.selected == [0]
              && forall i :: 0 <= i < |out.store| ==> Cell(out.store[i]) == Some(out.cells[i])
  {
    if images == [] {
      return Ok(TableOutputs([], [NO_IMAGES_FOUND], []));
    }
    var store := SortBy(images, NewestFirstKey);
    var cells := TableCells(store);
    StoredFramesHaveTimes(images, store);
    if cells.Err? {
      return Err(cells.error);
    }
    assert |store| > 0 by {
      assert |multiset(store)| == |multiset(images)|;
    }
    var selected := if cells.value != [] then [0] else [];
    return Ok(TableOutputs(store, cells.value, selected));
  }

  /** Reordering the list neither hides nor adds a frame whose time is `NaT`. */
  lemma StoredFramesHaveTimes(images: seq<S3Object>, store: seq<S3Object>)
    requires multiset(store) == multiset(images)
    ensures (forall i :: 0 <= i < |store| ==> Cell(store[i]).Some?) <==> !exists o :: o in images && FrameTime(o).NotATime?
  {
    if exists o :: o in images && FrameTime(o).NotATime? {
      var o :| o in images && FrameTime(o).NotATime?;
      assert o in multiset(store);
      var i :| 0 <= i < |store| && store[i] == o;
    }
    if exists i :: 0 <= i < |store| && Cell(store[i]).None? {
      var i :| 0 <= i < |store| && Cell(store[i]).None?;
      assert store[i] in multiset(images);
    }
  }

  /** The image a table selection designates: only the first selected row
      counts, and only when it indexes the stored list. */
  function SelectImage(images: seq<S3Object>, selectedRows: Option<seq<int>>): (r: Option<S3Object>)
    ensures r.Some? <==> images != [] && selectedRows.Some? && |selectedRows.value| > 0
                         && 0 <= selectedRows.value[0] < |images|
    ensures r.Some? ==> r.value == images[selectedRows.value[0]]
  {
    if images != [] && selectedRows.Some? && |selectedRows.value| > 0 then
      var index := selectedRows.value[0];
      if 0 <= index < |images| then Some(images[index]) else None
    else None
  }

  /** The default selection of a built table shows the newest frame: no stored
      frame has a later timestamp. */
  lemma DefaultSelectionIsNewest(store: seq<S3Object>)
    requires store != [] && SortedBy(store, NewestFirstKey)
    requires forall j :: 0 <= j < |store| ==> FrameTime(store[j]).Stamp?
    ensures SelectImage(store, Some([0])) == Some(store[0])
    ensures forall j :: 0 <= j < |store| ==> !Before(FrameTime(store[0]).t, FrameTime(store[j]).t)
  {
    forall j | 0 <= j < |store|
      ensures !Before(FrameTime(store[0]).t, FrameTime(store[j]).t)
    {
      if j > 0 {
        assert NewestFirstKey(store[0]) <= NewestFirstKey(store[j]);
      }
      InstantOrder(FrameTime(store[0]).t, FrameTime(store[j]).t);
    }
  }

  /** `json_key = selected_image_key + ".out"`: the detections of a frame. */
  function SidecarKey(frameKey: string): string {
    frameKey + ".out"
  }

  /** The sidecar the dashboard reads for a frame `<dir><s>.jpg` is the object
      the reconciler pairs with that frame: same stem, in the JSON slot. */
  lemma SidecarKeyPairsWithFrame(dir: string, s: string)
    requires dir == "" || dir[|dir| - 1] == '/'
    requires forall k :: 0 <= k < |s| ==> s[k] != '.' && s[k] != '/'
    ensures KindOf(dir + s + ".jpg") == Frame && KindOf(SidecarKey(dir + s + ".jpg")) == Sidecar
    ensures Stem(SidecarKey(dir + s + ".jpg")) == Stem(dir + s + ".jpg") == s
  {
    assert SidecarKey(dir + s + ".jpg") == dir + s + ".jpg.out";
    FrameAndSidecarPair(dir, s);
  }

  // ---------------------------------------------------------------------
  // fetch_data: distinct categories and the count-0 fill
  // ---------------------------------------------------------------------

  /** `category_name` of a scanned row. */
  function CategoryOf(row: StatRow): string {
    RowKey(row).1
  }

  /** The row's `count`, 0 where the attribute is absent (`fillna(0)`). */
  function CountOrZero(row: StatRow): nat {
    if row.CategoryRow? then row.count else 0
  }

  /** The row's `timestamp`: its id through `pd.to_datetime(..., errors="coerce")`;
      `None` is `NaT`, which `dropna` removes. */
  function RowTime(row: StatRow): Option<DateTime> {
    ToTimestamp(row.id)
  }

  /** The rows `dropna(subset=["timestamp"])` keeps, in scan order. */
  function Readable(scan: seq<StatRow>): seq<StatRow>
    decreases |scan|
  {
    if scan == [] then []
    else
      var n := |scan| - 1;
      Readable(scan[..n]) + if RowTime(scan[n]).Some? then [scan[n]] else []
  }

  lemma {:induction false} ReadableSpec(scan: seq<StatRow>, row: StatRow)
    ensures row in Readable(scan) <==> row in scan && RowTime(row).Some?
    decreases |scan|
  {
    if scan != [] {
      var n := |scan| - 1;
      ReadableSpec(scan[..n], row);
      assert scan == scan[..n] + [scan[n]];
    }
  }

  /** The sort key of `sort_values(by="timestamp")`: the row's instant. */
  function TimeKey(row: StatRow): int {
    match RowTime(row)
    case Some(t) => Instant(t)
    case None => 0
  }

  /** The frame after `dropna` and `sort_values`: the readable rows, oldest
      first. Rows with equal timestamps keep their scan order here. */
  function TimeOrdered(scan: seq<StatRow>): seq<StatRow> {
    Ordered(Readable(scan), TimeKey)
  }

  /** The sorted frame holds exactly the rows with a readable timestamp, and
      their timestamps never decrease along it. */
  lemma TimeOrderedSpec(scan: seq<StatRow>)
    ensures SortedBy(TimeOrdered(scan), TimeKey)
    ensures forall row :: row in TimeOrdered(scan) <==> row in scan && RowTime(row).Some?
  {
    OrderedSpec(Readable(scan), TimeKey);
    forall row ensures row in TimeOrdered(scan) <==> row in scan && RowTime(row).Some? {
      ReadableSpec(scan, row);
      assert row in TimeOrdered(scan) <==> row in multiset(Readable(scan));
    }
  }

  /** The `category_name` column of a frame, row by row. */
  function Names(rows: seq<StatRow>): (names: seq<string>)
    ensures |names| == |rows|
    ensures forall k :: 0 <= k < |rows| ==> names[k] == CategoryOf(rows[k])
  {
    seq(|rows|, k requires 0 <= k < |rows| => CategoryOf(rows[k]))
  }

  /** `.unique().tolist()` followed by the `whole_image` filter: first
      appearances, in order. */
  function UniqueCategories(names: seq<string>): (cats: seq<string>)
    ensures NoDuplicates(cats) && WHOLE_IMAGE !in cats
    decreases |names|
  {
    if names == [] then []
    else
      var n := |names| - 1;
      var cats := UniqueCategories(names[..n]);
      if names[n] != WHOLE_IMAGE && names[n] !in cats then cats + [names[n]] else cats
  }

  lemma {:induction false} UniqueCategoriesSpec(names: seq<string>, c: string)
    ensures c in UniqueCategories(names) <==> c != WHOLE_IMAGE && c in names
    decreases |names|
  {
    if names != [] {
      var n := |names| - 1;
      UniqueCategoriesSpec(names[..n], c);
      assert names == names[..n] + [names[n]];
    }
  }

  /** The order is that of first appearance: some occurrence of an earlier
      category comes before every occurrence of a later one. */
  lemma {:induction false} UniqueCategoriesOrder(names: seq<string>, i: nat, j: nat)
    requires i < j < |UniqueCategories(names)|
    ensures var cats := UniqueCategories(names);
            exists a :: 0 <= a < |names| && names[a] == cats[i]
                        && forall b :: 0 <= b < |names| && names[b] == cats[j] ==> a < b
    decreases |names|
  {
    var cats := UniqueCategories(names);
    var n := |names| - 1;
    var init := names[..n];
    var prev := UniqueCategories(init);
    if j < |prev| {
      assert cats[i] == prev[i] && cats[j] == prev[j];
      UniqueCategoriesOrder(init, i, j);
      var a :| 0 <= a < |init| && init[a] == prev[i]
               && forall b :: 0 <= b < |init| && init[b] == prev[j] ==> a < b;
      assert names[a] == cats[i];
      forall b | 0 <= b < |names| && names[b] == cats[j] ensures a < b {
        if b < n {
          assert init[b] == names[b];
        }
      }
    } else {
      // cats[j] is the name appended last, which `init` does not contain.
      assert cats == prev + [names[n]] && cats[j] == names[n] && cats[i] == prev[i];
      UniqueCategoriesSpec(init, prev[i]);
      UniqueCategoriesSpec(init, names[n]);
      var a :| 0 <= a < |init| && init[a] == prev[i];
      assert names[a] == cats[i];
      forall b | 0 <= b < n ensures names[b] != names[n] {
        assert init[b] == names[b];
      }
    }
  }

  /** The distinct categories `fetch_data` reports: first appearances in the
      frame sorted by timestamp. */
  function DistinctCategories(scan: seq<StatRow>): (cats: seq<string>)
    ensures NoDuplicates(cats) && WHOLE_IMAGE !in cats
  {
    UniqueCategories(Names(TimeOrdered(scan)))
  }

  /** Whether a row survives `dropna` and carries `c`. */
  predicate ReadableWith(row: StatRow, c: string) {
    RowTime(row).Some? && CategoryOf(row) == c
  }

  /** Some row with a readable timestamp carries category `c`. */
  predicate CarriedBy(scan: seq<StatRow>, c: string) {
    exists row :: row in scan && ReadableWith(row, c)
  }

  /** A name occurs in a column exactly when some row carries it. */
  lemma ColumnMembers<T>(rows: seq<T>, names: seq<string>, name: T -> string, c: string)
    requires |names| == |rows| && forall k :: 0 <= k < |rows| ==> names[k] == name(rows[k])
    ensures c in names <==> exists x :: x in rows && name(x) == c
  {
    if c in names {
      var k :| 0 <= k < |names| && names[k] == c;
      assert rows[k] in rows;
    }
    if exists x :: x in rows && name(x) == c {
      var x :| x in rows && name(x) == c;
      var k :| 0 <= k < |rows| && rows[k] == x;
      assert names[k] == c;
    }
  }

  /** On rows sorted by `key`, first appearances of their names come in key
      order. */
  lemma FirstAppearancesInKeyOrder<T>(rows: seq<T>, names: seq<string>, name: T -> string, key: T -> int, i: nat, j: nat)
    requires |names| == |rows| && forall k :: 0 <= k < |rows| ==> names[k] == name(rows[k])
    requires SortedBy(rows, key)
    requires i < j < |UniqueCategories(names)|
    ensures exists x :: x in rows && name(x) == UniqueCategories(names)[i]
                        && forall y :: y in rows && name(y) == UniqueCategories(names)[j] ==> key(x) <= key(y)
  {
    var cats := UniqueCategories(names);
    UniqueCategoriesOrder(names, i, j);
    var a :| 0 <= a < |names| && names[a] == cats[i]
             && forall b :: 0 <= b < |names| && names[b] == cats[j] ==> a < b;
    assert rows[a] in rows;
    forall y | y in rows && name(y) == cats[j] ensures key(rows[a]) <= key(y) {
      var b :| 0 <= b < |rows| && rows[b] == y;
      assert names[b] == cats[j];
    }
  }

  /** A category is listed exactly when some row with a readable timestamp
      carries it and it is not `whole_image`. */
  lemma DistinctCategoriesSpec(scan: seq<StatRow>, c: string)
    ensures c in DistinctCategories(scan) <==> c != WHOLE_IMAGE && CarriedBy(scan, c)
  {
    var rows := TimeOrdered(scan);
    UniqueCategoriesSpec(Names(rows), c);
    TimeOrderedSpec(scan);
    ColumnMembers(rows, Names(rows), CategoryOf, c);
  }

  /** Categories are listed by their earliest timestamp: each one has a
      readable row no later than every readable row of any category listed
      after it. */
  lemma DistinctCategoriesByTime(scan: seq<StatRow>, i: nat, j: nat)
    requires i < j < |DistinctCategories(scan)|
    ensures var cats := DistinctCategories(scan);
            exists row :: row in scan && ReadableWith(row, cats[i])
                          && forall other :: other in scan && ReadableWith(other, cats[j]) ==> TimeKey(row) <= TimeKey(other)
  {
    var rows := TimeOrdered(scan);
    TimeOrderedSpec(scan);
    FirstAppearancesInKeyOrder(rows, Names(rows), CategoryOf, TimeKey, i, j);
  }

  /** The timestamps of the `whole_image` rows: the reference timestamps. */
  function WholeTimes(scan: seq<StatRow>): set<DateTime> {
    set i | 0 <= i < |scan| && RowTime(scan[i]).Some? && CategoryOf(scan[i]) == WHOLE_IMAGE :: RowTime(scan[i]).value
  }

  /** The count stored for (t, c), or 0 when no row has that key. */
  function StoredCount(scan: seq<StatRow>, t: DateTime, c: string): nat
    decreases |scan|
  {
    if scan == [] then 0
    else if RowTime(scan[0]) == Some(t) && CategoryOf(scan[0]) == c then CountOrZero(scan[0])
    else StoredCount(scan[1..], t, c)
  }

  /** With the table's keys distinct, `StoredCount` is the count of the one row
      keyed (t, c), and 0 if there is none. */
  lemma {:induction false} StoredCountSpec(scan: seq<StatRow>, t: DateTime, c: string)
    requires DistinctKeys(scan)
    ensures forall i :: 0 <= i < |scan| && RowTime(scan[i]) == Some(t) && CategoryOf(scan[i]) == c ==>
              StoredCount(scan, t, c) == CountOrZero(scan[i])
    ensures (forall i :: 0 <= i < |scan| ==> !(RowTime(scan[i]) == Some(t) && CategoryOf(scan[i]) == c)) ==>
              StoredCount(scan, t, c) == 0
    decreases |scan|
  {
    if scan != [] {
      var rest := scan[1..];
      assert DistinctKeys(rest) by {
        forall i, j | 0 <= i < j < |rest| ensures RowKey(rest[i]) != RowKey(rest[j]) {
          assert rest[i] == scan[i + 1] && rest[j] == scan[j + 1];
        }
      }
      StoredCountSpec(rest, t, c);
      forall i | 0 <= i < |scan| && RowTime(scan[i]) == Some(t) && CategoryOf(scan[i]) == c
        ensures StoredCount(scan, t, c) == CountOrZero(scan[i])
      {
        if RowTime(scan[0]) == Some(t) && CategoryOf(scan[0]) == c {
          // Both ids are the canonical text of t, so the two keys coincide.
          ToTimestampCanonical(scan[0].id);
          ToTimestampCanonical(scan[i].id);
        } else {
          assert rest[i - 1] == scan[i];
        }
      }
      if forall i :: 0 <= i < |scan| ==> !(RowTime(scan[i]) == Some(t) && CategoryOf(scan[i]) == c) {
        assert forall i :: 0 <= i < |rest| ==> rest[i] == scan[i + 1];
      }
    }
  }

  /** The keys of the filled frame: every reference timestamp with every
      distinct category, and with `whole_image`. */
  function FilledKeys(scan: seq<StatRow>): set<(DateTime, string)> {
    var cats := DistinctCategories(scan) + [WHOLE_IMAGE];
    set t, c | t in WholeTimes(scan) && c in cats :: (t, c)
  }

  /** The frame after the fill: (timestamp, category) to `count`, which is
      `NaN` (`None`) on the `whole_image` rows. */
  function FilledFrame(scan: seq<StatRow>): map<(DateTime, string), Option<nat>> {
    map p | p in FilledKeys(scan) :: if p.1 == WHOLE_IMAGE then None else Some(StoredCount(scan, p.0, p.1))
  }

  /** What `fetch_data` returns: the frame, keyed by (timestamp, category), and
      the distinct categories. */
  datatype Fetched = Fetched(frame: map<(DateTime, string), Option<nat>>, categories: seq<string>)

  /** Some scanned row has a `count` attribute, so the frame has that column. */
  predicate HasCountColumn(scan: seq<StatRow>) {
    exists i :: 0 <= i < |scan| && scan[i].CategoryRow?
  }

  /** `fetch_data()` from lines 173-205, given the scanned items in scan order.
      With no row left after `dropna` the fill is skipped; when no item has a
      `count`, `df_filled["count"]` raises `KeyError` and the handler returns
      an empty frame with no categories. */
  function FetchData(scan: seq<StatRow>): Fetched {
    if forall i :: 0 <= i < |scan| ==> RowTime(scan[i]).None? then Fetched(map[], [])
    else if !HasCountColumn(scan) then Fetched(map[], [])
    else Fetched(FilledFrame(scan), DistinctCategories(scan))
  }

  /** The fill: every pair of a reference timestamp and a distinct category
      has a row, whose count is the stored one or 0; `whole_image` rows keep
      no count; rows at timestamps without a `whole_image` row are dropped. */
  lemma FetchDataSpec(scan: seq<StatRow>, t: DateTime, c: string)
    requires DistinctKeys(scan) && HasCountColumn(scan)
    ensures (t, c) in FetchData(scan).frame <==>
              t in WholeTimes(scan) && (c == WHOLE_IMAGE || c in FetchData(scan).categories)
    ensures (t, WHOLE_IMAGE) in FetchData(scan).frame ==> FetchData(scan).frame[(t, WHOLE_IMAGE)] == None
    ensures (t, c) in FetchData(scan).frame && c != WHOLE_IMAGE ==>
              FetchData(scan).frame[(t, c)] == Some(StoredCount(scan, t, c))
  {
    if forall i :: 0 <= i < |scan| ==> RowTime(scan[i]).None? {
      assert WholeTimes(scan) == {};
    } else {
      assert (t, c) in FilledKeys(scan) <==>
               t in WholeTimes(scan) && c in DistinctCategories(scan) + [WHOLE_IMAGE];
    }
  }

  /** A row whose timestamp has no `whole_image` row leaves no trace in the
      frame. */
  lemma OrphanRowsDropped(scan: seq<StatRow>, i: nat)
    requires i < |scan| && RowTime(scan[i]).Some? && RowTime(scan[i]).value !in WholeTimes(scan)
    ensures forall c :: (RowTime(scan[i]).value, c) !in FetchData(scan).frame
  {
  }

  /** When no item carries a `count`, the dashboard receives nothing. */
  lemma NoCountColumnEmpty(scan: seq<StatRow>)
    requires !HasCountColumn(scan)
    ensures FetchData(scan) == Fetched(map[], [])
  {
  }

  // ---------------------------------------------------------------------
  // update_webcam_graph_and_data: the bounding-box loop
  // ---------------------------------------------------------------------

  /** One detection of a sidecar: `bbox` = [x, y, width, height] in pixels with
      y = 0 at the top, and `category_name` when present. */
  datatype BoxInfo = BoxInfo(x: real, y: real, w: real, h: real, categoryName: Option<string>)

  /** A drawn rectangle in paper coordinates (y = 0 at the bottom), with the
      colour of its outline and its category label. */
  datatype Rect = Rect(x0: real, y0: real, x1: real, y1: real, color: string, category: string)

  /** `box_info.get("category_name", "unknown")` */
  function LabelOf(b: BoxInfo): string {
    match b.categoryName
    case Some(name) => name
    case None => "unknown"
  }

  /** `color_mapping.get(label, "red")` */
  function ColorOf(colors: map<string, string>, name: string): string {
    if name in colors then colors[name] else "red"
  }

  /** The rectangle of a box: pixel coordinates divided by the image size, then
      flipped so that y grows upwards. */
  function PlotRect(b: BoxInfo, colors: map<string, string>, width: real, height: real): Rect
    requires width > 0.0 && height > 0.0
  {
    var name := LabelOf(b);
    Rect(b.x / width, 1.0 - (b.y + b.h) / height, (b.x + b.w) / width, 1.0 - b.y / height,
         ColorOf(colors, name), name)
  }

  /** The flip loses nothing: the pixel box is recovered from the rectangle,
      and a box of non-negative size gives a rectangle with `x0 <= x1` and
      `y0 <= y1`. */
  lemma PlotRectInverse(b: BoxInfo, colors: map<string, string>, width: real, height: real)
    requires width > 0.0 && height > 0.0
    ensures var r := PlotRect(b, colors, width, height);
            && b.x == r.x0 * width && b.w == (r.x1 - r.x0) * width
            && b.y == (1.0 - r.y1) * height && b.h == (r.y1 - r.y0) * height
    ensures b.w >= 0.0 && b.h >= 0.0 ==>
              PlotRect(b, colors, width, height).x0 <= PlotRect(b, colors, width, height).x1
              && PlotRect(b, colors, width, height).y0 <= PlotRect(b, colors, width, height).y1
  {
    var r := PlotRect(b, colors, width, height);
    assert r.x0 * width == b.x;
    assert r.x1 * width == b.x + b.w;
    assert (1.0 - r.y1) * height == b.y;
    assert (1.0 - r.y0) * height == b.y + b.h;
  }

  /** A box inside the image gives a rectangle inside the unit square. */
  lemma PlotRectInside(b: BoxInfo, colors: map<string, string>, width: real, height: real)
    requires width > 0.0 && height > 0.0
    requires 0.0 <= b.x && 0.0 <= b.w && b.x + b.w <= width
    requires 0.0 <= b.y && 0.0 <= b.h && b.y + b.h <= height
    ensures var r := PlotRect(b, colors, width, height);
            0.0 <= r.x0 <= r.x1 <= 1.0 && 0.0 <= r.y0 <= r.y1 <= 1.0
  {
    DivUnit(b.x, width);
    DivUnit(b.x + b.w, width);
    DivMonotone(b.x, b.x + b.w, width);
    DivUnit(b.y, height);
    DivUnit(b.y + b.h, height);
    DivMonotone(b.y, b.y + b.h, height);
  }

  lemma DivUnit(a: real, w: real)
    requires w > 0.0 && 0.0 <= a <= w
    ensures 0.0 <= a / w <= 1.0
  {
    assert a / w * w == a;
  }

  lemma DivMonotone(a: real, c: real, w: real)
    requires w > 0.0 && a <= c
    ensures a / w <= c / w
  {
    assert c / w - a / w == (c - a) / w;
  }

  /** The rectangles the loop draws: one per box whose label is allowed, in
      sidecar order. */
  function BoxShapes(boxes: seq<BoxInfo>, allowed: set<string>, colors: map<string, string>,
                     width: real, height: real): seq<Rect>
    requires width > 0.0 && height > 0.0
  {
    if boxes == [] then []
    else
      var n := |boxes| - 1;
      BoxShapes(boxes[..n], allowed, colors, width, height)
      + if LabelOf(boxes[n]) in allowed then [PlotRect(boxes[n], colors, width, height)] else []
  }

  /** Every drawn rectangle carries an allowed label and that label's colour
      ("red" when the mapping lacks it), and comes from a box of the sidecar;
      no more rectangles than boxes. */
  lemma {:induction false} BoxShapesSpec(boxes: seq<BoxInfo>, allowed: set<string>, colors: map<string, string>,
                                         width: real, height: real)
    requires width > 0.0 && height > 0.0
    ensures |BoxShapes(boxes, allowed, colors, width, height)| <= |boxes|
    ensures forall r :: r in BoxShapes(boxes, allowed, colors, width, height) ==>
              r.category in allowed && r.color == ColorOf(colors, r.category)
              && exists b :: b in boxes && r == PlotRect(b, colors, width, height)
    decreases |boxes|
  {
    if boxes != [] {
      var n := |boxes| - 1;
      BoxShapesSpec(boxes[..n], allowed, colors, width, height);
      forall b | b in boxes[..n] ensures b in boxes { }
    }
  }

  /** A box with an allowed label is always drawn, and a missing label is
      drawn only when `"unknown"` is allowed. */
  lemma {:induction false} AllowedBoxDrawn(boxes: seq<BoxInfo>, allowed: set<string>, colors: map<string, string>,
                                           width: real, height: real, i: nat)
    requires width > 0.0 && height > 0.0
    requires i < |boxes| && LabelOf(boxes[i]) in allowed
    ensures PlotRect(boxes[i], colors, width, height) in BoxShapes(boxes, allowed, colors, width, height)
    decreases |boxes|
  {
    var n := |boxes| - 1;
    if i < n {
      AllowedBoxDrawn(boxes[..n], allowed, colors, width, height, i);
    }
  }

  /** The `for box_info in bbox_data_raw` loop: label, colour, allow-list
      check, coordinate conversion, one shape per kept box. */
  method DrawBoxes(boxes: seq<BoxInfo>, allowed: set<string>, colors: map<string, string>,
                   width: real, height: real) returns (shapes: seq<Rect>)
    requires width > 0.0 && height > 0.0
    ensures shapes == BoxShapes(boxes, allowed, colors, width, height)
  {
    shapes := [];
    for i := 0 to |boxes|
      invariant shapes == BoxShapes(boxes[..i], allowed, colors, width, height)
    {
      assert boxes[..i + 1][..i] == boxes[..i];
      var b := boxes[i];
      var name := LabelOf(b);
      var color := ColorOf(colors, name);
      if name in allowed {
        var x0Rel, y0Rel := b.x / width, b.y / height;
        var x1Rel, y1Rel := (b.x + b.w) / width, (b.y + b.h) / height;
        shapes := shapes + [Rect(x0Rel, 1.0 - y1Rel, x1Rel, 1.0 - y0Rel, color, name)];
      }
    }
    assert boxes[..|boxes|] == boxes;
  }

  /** What `load_json_from_s3` gave for the sidecar: the boxes, `None`, or an
      exception. */
  datatype SidecarLoad = Loaded(boxes: seq<BoxInfo>) | LoadedNothing | LoadRaised

  /** The `bbox-data-store` contents: raw boxes and the image size, if known. */
  datatype BboxStore = BboxStore(bboxes: seq<BoxInfo>, width: Option<nat>, height: Option<nat>)

  /** The graph callback's outputs: the fallback figure with empty box data, or
      the selected frame with its rectangles and box data. */
  datatype WebcamView = FallbackView | FrameView(key: string, shapes: seq<Rect>, store: BboxStore)

  /** `update_webcam_graph_and_data`: `frameSize` is the decoded size of each
      frame (width, height), `loadJson` the outcome of loading each sidecar,
      `scan` the statistics table read by `fetch_data`, `allowed` the
      dashboard's allow-list. */
  method UpdateWebcamGraph(selectedRows: Option<seq<int>>, images: seq<S3Object>,
                           frameSize: string -> (nat, nat), loadJson: string -> SidecarLoad,
                           scan: seq<StatRow>, allowed: set<string>) returns (view: WebcamView)
    requires forall k :: frameSize(k).0 > 0 && frameSize(k).1 > 0
    ensures SelectImage(images, selectedRows).None? <==> view == FallbackView
    ensures view.FrameView? ==> view.key == SelectImage(images, selectedRows).value.key
    ensures view.FrameView? ==>
              var size := frameSize(view.key);
              match loadJson(SidecarKey(view.key))
              case Loaded(boxes) =>
                view.store == BboxStore(boxes, Some(size.0), Some(size.1))
                && view.shapes == BoxShapes(boxes, allowed, GenerateColorMapping(FetchData(scan).categories),
                                            size.0 as real, size.1 as real)
              case LoadedNothing => view.store == BboxStore([], Some(size.0), Some(size.1)) && view.shapes == []
              case LoadRaised => view.store == BboxStore([], None, None) && view.shapes == []
  {
    var selected := SelectImage(images, selectedRows);
    if selected.None? {
      return FallbackView;
    }
    var key := selected.value.key;
    var size := frameSize(key);
    var width: Option<nat>, height: Option<nat> := Some(size.0), Some(size.1);
    var raw: seq<BoxInfo> := [];
    match loadJson(SidecarKey(key)) {
      case Loaded(boxes) => raw := boxes;
      case LoadedNothing => raw := [];
      case LoadRaised =>
        raw := [];
        width, height := None, None;
    }
    var colors := GenerateColorMapping(FetchData(scan).categories);
    var shapes: seq<Rect> := [];
    if raw != [] && width.Some? && height.Some? {
      shapes := DrawBoxes(raw, allowed, colors, width.value as real, height.value as real);
    }
    return FrameView(key, shapes, BboxStore(raw, width, height));
  }
}
